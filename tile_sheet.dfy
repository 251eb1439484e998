/**
 * The tile-sheet view: every loaded tile drawn with one palette, 32 tiles to
 * a row, each source pixel magnified to an m-by-m block, on a black
 * background.
 */
module TileSheet {
  import opened Colors
  import opened Raster
  import opened TileDecoder
  import opened PaletteDecoder

  /** Canvas width set by the tile view: exactly 32 tile columns of 8 * m pixels. */
  function SheetWidth(m: nat): (w: nat)
    ensures 0 < m ==> w / (8 * m) == 32 && w % (8 * m) == 0
  {
    var w := 32 * (8 * m);
    if 0 < m then MulDiv(32, 8 * m); w else w
  }

  /** Number of tile rows, ceil(n / 32). */
  function SheetRows(n: nat): (rows: nat)
    ensures n <= 32 * rows < n + 32
  {
    (n + 31) / 32
  }

  /**
   * Canvas height set by the tile view: exactly ceil(n / 32) tile rows of
   * 8 * m pixels, so the canvas is empty exactly when there are no tiles.
   */
  function SheetHeight(n: nat, m: nat): (h: nat)
    ensures 0 < m ==> h / (8 * m) == SheetRows(n) && h % (8 * m) == 0
    ensures h == 0 <==> n == 0 || m == 0
  {
    var h := SheetRows(n) * (8 * m);
    if 0 < m then MulDiv(SheetRows(n), 8 * m); h else h
  }

  /** The tile view at magnification 1 holding 33 tiles is 256 pixels wide and two tile rows high. */
  lemma SheetSizeExample()
    ensures SheetWidth(1) == 256 && SheetHeight(33, 1) == 16
    ensures SheetWidth(2) == 512 && SheetHeight(0, 2) == 0
  {
  }

  /**
   * What drawing assumes of its input: each tile has its 64 pixels and each
   * pixel selects a colour of the palette (otherwise the lookup would fail).
   */
  predicate Drawable(palette: Palette, tiles: seq<Tile>) {
    forall t :: 0 <= t < |tiles| ==> TileDrawable(palette, tiles[t])
  }

  predicate TileDrawable(palette: Palette, tile: Tile) {
    |tile| >= 64 && forall i :: 0 <= i < 64 ==> 0 <= tile[i] < |palette|
  }

  /** Left edge of the block painted for pixel column x of tile t. */
  function BlockLeft(t: nat, x: nat, m: nat): nat {
    (t % 32) * 8 * m + x * m
  }

  /** Top edge of the block painted for pixel row y of tile t. */
  function BlockTop(t: nat, y: nat, m: nat): nat {
    (t / 32) * 8 * m + y * m
  }

  /** Canvas pixel (row, col) lies in the 8m-by-8m cell of tile slot t. */
  predicate InCell(t: nat, m: nat, row: nat, col: nat)
    requires 0 < m
  {
    col / m / 8 == t % 32 && row / m / 8 == t / 32
  }

  /** The colour a tile gives canvas pixel (row, col) of its cell. */
  function CellColor(palette: Palette, tile: Tile, m: nat, row: nat, col: nat): RGB
    requires 0 < m && TileDrawable(palette, tile)
  {
    palette[tile[(row / m % 8) * 8 + col / m % 8]]
  }

  /**
   * Reference definition of the finished sheet: the colour at canvas pixel
   * (row, col) after drawing: the background or a colour of the palette.
   */
  function SheetPixel(palette: Palette, tiles: seq<Tile>, m: nat, row: nat, col: nat): (px: RGB)
    requires Drawable(palette, tiles)
    ensures px == Black || px in palette
  {
    if m == 0 then Black
    else
      var sx, sy := col / m, row / m;
      var t := Slot(sx / 8, sy / 8);
      if sx / 8 < 32 && t < |tiles| then palette[tiles[t][(sy % 8) * 8 + sx % 8]] else Black
  }

  /**
   * The block of pixel (x, y) of tile t is exactly the set of canvas pixels
   * of tile t's cell whose source pixel is (x, y).
   */
  lemma BlockIsCellPixel(t: nat, x: nat, y: nat, m: nat, row: nat, col: nat)
    requires x < 8 && y < 8
    ensures InRect(row, col, BlockLeft(t, x, m), BlockTop(t, y, m), m, m) <==>
            0 < m && InCell(t, m, row, col) && row / m % 8 == y && col / m % 8 == x
  {
    if 0 < m {
      var qx, qy := (t % 32) * 8 + x, (t / 32) * 8 + y;
      assert BlockLeft(t, x, m) == qx * m;
      assert BlockTop(t, y, m) == qy * m;
      DivSpan(col, qx, m);
      DivSpan(row, qy, m);
    }
  }

  /** Every pixel of the block for pixel (x, y) of tile t shows that pixel's palette colour. */
  lemma BlockColor(palette: Palette, tiles: seq<Tile>, m: nat, t: nat, x: nat, y: nat, i: nat, j: nat)
    requires Drawable(palette, tiles)
    requires t < |tiles| && x < 8 && y < 8 && i < m && j < m
    ensures SheetPixel(palette, tiles, m, BlockTop(t, y, m) + j, BlockLeft(t, x, m) + i)
            == palette[tiles[t][y * 8 + x]]
  {
    BlockIsCellPixel(t, x, y, m, BlockTop(t, y, m) + j, BlockLeft(t, x, m) + i);
  }

  /** Blocks of distinct (tile, pixel) pairs never share a canvas pixel. */
  lemma BlocksDisjoint(m: nat, t1: nat, x1: nat, y1: nat, t2: nat, x2: nat, y2: nat, row: nat, col: nat)
    requires x1 < 8 && y1 < 8 && x2 < 8 && y2 < 8
    requires InRect(row, col, BlockLeft(t1, x1, m), BlockTop(t1, y1, m), m, m)
    requires InRect(row, col, BlockLeft(t2, x2, m), BlockTop(t2, y2, m), m, m)
    ensures t1 == t2 && x1 == x2 && y1 == y2
  {
    BlockIsCellPixel(t1, x1, y1, m, row, col);
    BlockIsCellPixel(t2, x2, y2, m, row, col);
  }

  /** Every block of each of n tiles lies inside the canvas the tile view creates for n tiles. */
  lemma BlocksInsideCanvas(n: nat, m: nat, t: nat, x: nat, y: nat)
    requires t < n && x < 8 && y < 8
    ensures BlockLeft(t, x, m) + m <= SheetWidth(m)
    ensures BlockTop(t, y, m) + m <= SheetHeight(n, m)
  {
    CellEdge(t % 32, x, 32, m);
    assert t / 32 < SheetRows(n);
    CellEdge(t / 32, y, SheetRows(n), m);
  }

  /** The block of pixel x of the c-th of k cells of size 8 * m ends within the k cells. */
  lemma CellEdge(c: nat, x: nat, k: nat, m: nat)
    requires c < k && x < 8
    ensures c * 8 * m + x * m + m <= k * (8 * m)
  {
    MulMonotone(c * 8 + x + 1, k * 8, m);
    assert c * 8 * m + x * m + m == (c * 8 + x + 1) * m;
    assert k * (8 * m) == (k * 8) * m;
  }

  /** A pixel that no block covers keeps the black background. */
  lemma UncoveredIsBlack(palette: Palette, tiles: seq<Tile>, m: nat, row: nat, col: nat)
    requires Drawable(palette, tiles)
    requires forall t: nat, x: nat, y: nat :: t < |tiles| && x < 8 && y < 8 ==>
               !InRect(row, col, BlockLeft(t, x, m), BlockTop(t, y, m), m, m)
    ensures SheetPixel(palette, tiles, m, row, col) == Black
  {
    if 0 < m {
      var sx, sy := col / m, row / m;
      var t := Slot(sx / 8, sy / 8);
      if sx / 8 < 32 && t < |tiles| {
        SlotParts(sx / 8, sy / 8);
        BlockIsCellPixel(t, sx % 8, sy % 8, m, row, col);
        assert false;
      }
    }
  }

  /** The tile slot in cell column cx and cell row cy of the sheet. */
  function Slot(cx: nat, cy: nat): nat {
    cy * 32 + cx
  }

  lemma SlotParts(cx: nat, cy: nat)
    requires cx < 32
    ensures Slot(cx, cy) % 32 == cx && Slot(cx, cy) / 32 == cy
  {
  }

  lemma DrawablePrefix(palette: Palette, tiles: seq<Tile>, k: nat)
    requires Drawable(palette, tiles) && k <= |tiles|
    ensures Drawable(palette, tiles[..k])
  {
    assert forall t :: 0 <= t < k ==> tiles[..k][t] == tiles[t];
  }

  /** Drawing tile t onto the sheet of the first t tiles changes exactly tile t's cell. */
  lemma SheetStep(palette: Palette, tiles: seq<Tile>, m: nat, t: nat, row: nat, col: nat)
    requires Drawable(palette, tiles) && t < |tiles| && 0 < m
    requires Drawable(palette, tiles[..t]) && Drawable(palette, tiles[..t + 1])
    requires TileDrawable(palette, tiles[t])
    ensures SheetPixel(palette, tiles[..t + 1], m, row, col) ==
            if InCell(t, m, row, col) then CellColor(palette, tiles[t], m, row, col)
            else SheetPixel(palette, tiles[..t], m, row, col)
  {
    var sx, sy := col / m, row / m;
    var s := Slot(sx / 8, sy / 8);
    if sx / 8 < 32 {
      SlotParts(sx / 8, sy / 8);
      assert InCell(t, m, row, col) <==> s == t;
      if s < t {
        assert tiles[..t + 1][s] == tiles[..t][s];
      }
    }
  }

  /** Paints the 64 blocks of tile slot t; pixels outside its cell keep their colour. */
  method DrawTile(canvas: array2<RGB>, palette: Palette, tile: Tile, t: nat, m: nat)
    requires TileDrawable(palette, tile)
    modifies canvas
    ensures forall r, c :: 0 <= r < canvas.Length0 && 0 <= c < canvas.Length1 ==>
              canvas[r, c] == if 0 < m && InCell(t, m, r, c) then CellColor(palette, tile, m, r, c)
                              else old(canvas[r, c])
  {
    var tileX := (t % 32) * 8 * m;
    var tileY := (t / 32) * 8 * m;
    for y := 0 to 8
      invariant forall r, c :: 0 <= r < canvas.Length0 && 0 <= c < canvas.Length1 ==>
                  canvas[r, c] == if 0 < m && InCell(t, m, r, c) && r / m % 8 < y
                                  then CellColor(palette, tile, m, r, c) else old(canvas[r, c])
    {
      for x := 0 to 8
        invariant forall r, c :: 0 <= r < canvas.Length0 && 0 <= c < canvas.Length1 ==>
                    canvas[r, c] == if 0 < m && InCell(t, m, r, c) &&
                                       (r / m % 8 < y || (r / m % 8 == y && c / m % 8 < x))
                                    then CellColor(palette, tile, m, r, c) else old(canvas[r, c])
      {
        var colorIndex := tile[y * 8 + x];
        var color := palette[colorIndex];
        label Before:
        FillRect(canvas, tileX + x * m, tileY + y * m, m, m, color);
        forall r, c | 0 <= r < canvas.Length0 && 0 <= c < canvas.Length1
          ensures canvas[r, c] == if 0 < m && InCell(t, m, r, c) &&
                                     (r / m % 8 < y || (r / m % 8 == y && c / m % 8 < x + 1))
                                  then CellColor(palette, tile, m, r, c) else old(canvas[r, c])
        {
          BlockIsCellPixel(t, x, y, m, r, c);
          if InRect(r, c, tileX + x * m, tileY + y * m, m, m) {
            assert canvas[r, c] == color == CellColor(palette, tile, m, r, c);
          } else {
            assert canvas[r, c] == old@Before(canvas[r, c]);
          }
        }
      }
    }
  }

  /**
   * drawTiles: black background, then every tile's blocks. The canvas ends up
   * equal to the reference sheet wherever it has pixels.
   */
  method DrawTiles(canvas: array2<RGB>, palette: Palette, tiles: seq<Tile>, m: nat)
    requires Drawable(palette, tiles)
    modifies canvas
    ensures forall r, c :: 0 <= r < canvas.Length0 && 0 <= c < canvas.Length1 ==>
              canvas[r, c] == SheetPixel(palette, tiles, m, r, c)
  {
    FillRect(canvas, 0, 0, canvas.Length1, canvas.Length0, Black);
    for t := 0 to |tiles|
      invariant Drawable(palette, tiles[..t])
      invariant forall r, c :: 0 <= r < canvas.Length0 && 0 <= c < canvas.Length1 ==>
                  canvas[r, c] == SheetPixel(palette, tiles[..t], m, r, c)
    {
      DrawablePrefix(palette, tiles, t + 1);
      DrawTile(canvas, palette, tiles[t], t, m);
      forall r, c | 0 <= r < canvas.Length0 && 0 <= c < canvas.Length1
        ensures canvas[r, c] == SheetPixel(palette, tiles[..t + 1], m, r, c)
      {
        if 0 < m {
          SheetStep(palette, tiles, m, t, r, c);
        }
      }
    }
    assert tiles[..|tiles|] == tiles;
  }
}
