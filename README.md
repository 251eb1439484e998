# Map editor: asset decoding and drawing core

This project models the core of a small editor for retro-console graphics.
The editor loads palettes of 16 colours stored as 15-bit BGR words and tiles
of 8x8 4-bit colour indices stored as linear nibbles. It draws the loaded
tiles as a magnified tile sheet and the palettes as a strip of swatches. It
appends every upload to what is already loaded, and it keeps a 32x32 tile
map with an optional selected cell.

Modules, one per component:

- `Colors` covers the RGB triple and the decoding of one colour word: three
  5-bit fields, each scaled with floor(c * 255 / 31).
- `PaletteDecoder` covers `fileToPalettes`. `Words` reads the buffer as
  little-endian 16-bit words. `PalettesOf` is the recursive reference
  definition, one palette per full run of 16 words. `FileToPalettes` is the
  source's `while`/`for` loop, proved equal to it.
- `TileDecoder` covers `fileToTiles`. `Nibbles` and `TilesOf` are the
  reference definitions. `FileToTiles` is the source's loop, proved equal to them.
- `Raster` covers the pixel grid (`array2<RGB>`, indexed `[row, column]`) and
  the rectangle fill of the 2-D canvas context. The fill clips to the canvas.
- `TileSheet` covers `drawTiles` and the tile view's canvas size.
  `SheetPixel` is the reference picture. `DrawTiles` fills the background
  and then paints tile by tile and block by block into the array, and it is
  proved to leave every canvas pixel equal to `SheetPixel`.
- `PaletteStrip` covers `drawPalette` and the palette view's canvas size,
  with `StripPixel` as its reference picture.
- `Upload` covers what the two upload handlers do to the collections:
  decode every file, flatten the results in file order, and append them.
- `AppSession` covers the state of the application component: the palettes
  and tiles it creates empty, which the upload handlers append to and the
  tile view draws. It also covers the palette-index guard before drawing.
- `MapEditor` covers the state of the map-editor provider: its own empty
  collections, the default-filled 32x32 map, no selection at start, and the
  `currentTileEntry` lookup.

Palette decoding can fail. `new Uint16Array(bytes)` at src/App.tsx:243
throws a RangeError when the byte count is odd, so `FileToPalettes` returns
`Failure(OddByteLength)` for such a buffer. The rejection propagates through
`Promise.all`, and the palette handler stops before its state update.
`UploadPalettes` therefore leaves the palette collection as it was, even if
the other chosen files were valid.

The source computes `Math.floor((c * 255) / 31)` and `Math.ceil(n / 32)` in
floating point. For 0 <= c < 32, and for any tile count below 2^53, these
equal the integer expressions used here.

## Model

| member | source | states |
|---|---|---|
| `Colors.RedBits` | src/App.tsx:250 | the red field is bits 0-4 of the word, a value in [0, 31] |
| `Colors.GreenBits` | src/App.tsx:251 | the green field is bits 5-9, a value in [0, 31] |
| `Colors.BlueBits` | src/App.tsx:252 | the blue field is bits 10-14, a value in [0, 31] |
| `Colors.Scale` | src/App.tsx:253-255 | floor(c * 255 / 31) lies in [0, 255]; it is 0 exactly for c = 0 and 255 exactly for c = 31 |
| `Colors.ScaleStrictlyMonotone` | src/App.tsx:253-255 | scaling is strictly monotone: a larger 5-bit value gives a channel at least 8 higher |
| `Colors.ScaleInjective` | src/App.tsx:253-255 | two 5-bit values scale to the same channel only if they are equal |
| `Colors.DecodeColor` | src/App.tsx:249-256 | every decoded channel lies in [0, 255] |
| `Colors.FieldsDetermineLowBits` | src/App.tsx:250-252 | the three 5-bit fields agree exactly when the low 15 bits agree |
| `Colors.DecodeColorInjective` | src/App.tsx:249-256 | two words decode to the same colour if and only if their low 15 bits are equal: bit 15 never matters and no other bit is lost |
| `Colors.DecodeColorExamples` | src/App.tsx:249-256 | 0x7FFF and 0xFFFF decode to (255, 255, 255), 0x0000 to (0, 0, 0), and 15 scales to 123 |
| `PaletteDecoder.Word` | src/App.tsx:243 | a word's low byte is the first byte and its high byte the second (little-endian) |
| `PaletteDecoder.Words` | src/App.tsx:243 | an even-length buffer of L bytes gives L / 2 words, word i made of bytes 2i (low) and 2i + 1 (high) |
| `PaletteDecoder.ColorsOf` | src/App.tsx:248-257 | a run of W words gives W colours, each with channels in [0, 255] |
| `PaletteDecoder.PalettesOf` | src/App.tsx:246-259 | W words give exactly floor(W / 16) palettes |
| `PaletteDecoder.PalettesOfShape` | src/App.tsx:246-259 | W words give exactly floor(W / 16) palettes of exactly 16 colours; colour i of palette k is decoded from word 16k + i; a trailing partial group is dropped |
| `PaletteDecoder.DecodedPalettesValid` | src/App.tsx:246-259 | every decoded palette has exactly 16 colours, each with channels in [0, 255] |
| `PaletteDecoder.ZeroBufferIsBlack` | src/App.tsx:241-262 | a buffer of zero bytes decodes only to black colours |
| `PaletteDecoder.DecodePalette` | src/App.tsx:248-257 | the inner loop decodes the 16 words from `curr` into exactly the reference colours |
| `PaletteDecoder.FileToPalettes` | src/App.tsx:241-262 | fails exactly for an odd byte count; otherwise returns the reference palettes of the buffer's words |
| `TileDecoder.Low` | src/App.tsx:273 | the first pixel of a byte is a colour index in [0, 15] |
| `TileDecoder.High` | src/App.tsx:274 | the second pixel of a byte is a colour index in [0, 15] |
| `TileDecoder.NibblesMakeByte` | src/App.tsx:272-274 | low + 16 * high is the byte, so unpacking loses nothing |
| `TileDecoder.Nibbles` | src/App.tsx:271-275 | n bytes unpack to 2n pixels, each in [0, 15] |
| `TileDecoder.TilesOf` | src/App.tsx:269-278 | L bytes give exactly floor(L / 32) tiles |
| `TileDecoder.NibblesAt` | src/App.tsx:271-275 | n bytes unpack to 2n pixels; pixel 2i is the low nibble and pixel 2i + 1 the high nibble of byte i |
| `TileDecoder.TilesOfShape` | src/App.tsx:269-278 | L bytes give exactly floor(L / 32) tiles of 64 pixels; pixel 2i of tile k is byte[32k + i] & 0xF and pixel 2i + 1 is (byte[32k + i] >> 4) & 0xF |
| `TileDecoder.DecodedTilesValid` | src/App.tsx:269-278 | every decoded tile has exactly 64 pixels, each in [0, 15], so each selects a colour of a 16-colour palette |
| `TileDecoder.ZeroBufferIsBlank` | src/App.tsx:264-280 | a buffer of zero bytes decodes only to pixels of colour index 0 |
| `TileDecoder.SingleSetNibble` | src/App.tsx:264-280 | the bytes 0x10 followed by 31 zero bytes give one tile whose pixel 1 is 1 and whose other 63 pixels are 0 |
| `TileDecoder.UnpackTile` | src/App.tsx:271-275 | the inner loop unpacks the 32 bytes from `curr` into exactly the reference pixels, low nibble first |
| `TileDecoder.FileToTiles` | src/App.tsx:264-280 | the loop returns exactly the reference tiles of the buffer |
| `Raster.FillRect` | src/App.tsx:114-119 | the part of the rectangle inside the canvas takes the colour, and every other pixel keeps its colour |
| `Raster.DivSpan` | src/App.tsx:114-119 | with block size m > 0, a pixel lies in block q exactly when its position divided by m is q |
| `TileSheet.SheetWidth` | src/App.tsx:52 | the tile view's canvas is exactly 32 tile columns of 8m pixels |
| `TileSheet.SheetRows` | src/App.tsx:53 | the row count is ceil(n / 32): 32 rows' worth of slots hold all n tiles, and one row fewer does not |
| `TileSheet.SheetHeight` | src/App.tsx:53 | the tile view's canvas is exactly ceil(n / 32) tile rows of 8m pixels; it is empty exactly when there are no tiles or m = 0 |
| `TileSheet.SheetSizeExample` | src/App.tsx:52-53 | 33 tiles at magnification 1 give a 256 x 16 canvas |
| `TileSheet.SheetPixel` | src/App.tsx:102-121 | the finished sheet's pixel (row, col) is black or a colour of the palette; BlockColor and UncoveredIsBlack below pin which |
| `TileSheet.BlockIsCellPixel` | src/App.tsx:106-119 | the block painted for pixel (x, y) of tile t is exactly the set of canvas pixels in tile t's cell (column t % 32, row t / 32) whose source pixel is (x, y) |
| `TileSheet.BlockColor` | src/App.tsx:105-121 | every pixel of the m x m block at ((t % 32) * 8m + xm, (t / 32) * 8m + ym) shows palette[tile[t][8y + x]] |
| `TileSheet.BlocksDisjoint` | src/App.tsx:106-119 | blocks of distinct (tile, pixel) pairs share no canvas pixel |
| `TileSheet.BlocksInsideCanvas` | src/App.tsx:52-53 | for n tiles every block lies inside the 32 * 8 * m by ceil(n / 32) * 8 * m canvas |
| `TileSheet.UncoveredIsBlack` | src/App.tsx:102-103 | a pixel that no block covers stays black |
| `TileSheet.SheetStep` | src/App.tsx:105-122 | drawing tile t after tiles 0 .. t - 1 changes exactly tile t's cell |
| `TileSheet.DrawTile` | src/App.tsx:106-121 | paints tile t's cell with its magnified pixels and leaves every other pixel as it was |
| `TileSheet.DrawTiles` | src/App.tsx:92-123 | after drawing, every canvas pixel equals the reference sheet: its block's palette colour, or black |
| `PaletteStrip.StripWidth` | src/App.tsx:215 | the palette view's canvas is 16 steps of b + 1 pixels (a gutter and a swatch) plus one closing gutter |
| `PaletteStrip.StripHeight` | src/App.tsx:214 | the palette view's canvas is one step of b + 1 pixels per palette plus one closing gutter |
| `PaletteStrip.StripPixel` | src/App.tsx:194-208 | the finished strip's gutter pixels (the first pixel of every b + 1 step, in either direction) are black; SwatchColor and UncoveredIsBlack below pin the rest |
| `PaletteStrip.SwatchIsStep` | src/App.tsx:201-206 | the swatch of (p, c) is exactly the non-gutter pixels of step (p, c) of size b + 1 |
| `PaletteStrip.SwatchColor` | src/App.tsx:197-208 | every pixel of the swatch [c(b+1)+1, +b) x [p(b+1)+1, +b) shows colour c of palette p |
| `PaletteStrip.SwatchesDisjoint` | src/App.tsx:201-206 | swatches of distinct (palette, colour) pairs share no pixel |
| `PaletteStrip.SwatchesInsideCanvas` | src/App.tsx:214-215 | for n palettes of 16 colours every swatch lies inside the 16b + 17 by nb + n + 1 canvas, with a gutter left on the right and at the bottom |
| `PaletteStrip.UncoveredIsBlack` | src/App.tsx:194-195 | gutters and every other pixel no swatch covers stay black |
| `PaletteStrip.StripStep` | src/App.tsx:197-208 | drawing palette p after palettes 0 .. p - 1 adds exactly its row of swatches |
| `PaletteStrip.DrawPaletteRow` | src/App.tsx:198-207 | paints the swatches of palette p and leaves every other pixel as it was |
| `PaletteStrip.DrawPalette` | src/App.tsx:185-209 | after drawing, every canvas pixel equals the reference strip |
| `Upload.FlattenAt` | src/App.tsx:133 | after flattening, item i of list j follows all items of the lists before it |
| `Upload.Flatten` | src/App.tsx:133 | `.flat()` keeps every item of every list |
| `Upload.FlattenFrom` | src/App.tsx:133 | `.flat()` adds nothing: every item of the result comes from one of the lists |
| `Upload.FlattenGroups` | src/App.tsx:133 | flattening the decoded files gives one item per 32-byte group over all files |
| `Upload.AppendLayout` | src/App.tsx:136 | appending keeps the old collection as an unchanged prefix, grows it by exactly the decoded count, and places every decoded item in file order |
| `Upload.DecodedTiles` | src/App.tsx:133 | mapping the tile decoder over the files gives one result per file, with floor(L / 32) tiles for a file of L bytes |
| `Upload.UploadTiles` | src/App.tsx:130-137 | the tile handler's new collection: the old tiles followed by the flattened decoded tiles, as UploadTilesAppends states in full |
| `Upload.DecodedPalettes` | src/App.tsx:152-154 | mapping the palette decoder over even-length files gives one result per file, with floor(L / 32) palettes for a file of L bytes |
| `Upload.UploadPalettes` | src/App.tsx:149-158 | the palette handler's new collection: unchanged when a file has odd length, otherwise the old palettes followed by the flattened decoded ones, as UploadPalettesAppends states in full |
| `Upload.UploadTilesAppends` | src/App.tsx:130-137 | a tile upload keeps the old tiles as a prefix, adds exactly floor(L / 32) tiles per file of L bytes without deduplication, and places tile i of file j right after the tiles of earlier files |
| `Upload.UploadPalettesAppends` | src/App.tsx:149-158 | a palette upload with an odd-length file leaves the palettes unchanged; otherwise it keeps them as a prefix, adds floor(L / 32) palettes per file in file order, and does not deduplicate |
| `Upload.UploadKeepsValidTiles` | src/App.tsx:130-137 | if every loaded tile is well formed (64 pixels in [0, 15]), so is every tile after an upload |
| `Upload.UploadKeepsValidPalettes` | src/App.tsx:149-158 | if every loaded palette has 16 valid colours, so does every palette after an upload, whether it succeeds or not |
| `MapEditor.InitialTileMap` | src/MapEditorProvider.tsx:9-18 | the initial map has 32 rows of 32 cells, each {tileIndex: 1, no flips, paletteIndex: 0} |
| `MapEditor.InitialState` | src/MapEditorProvider.tsx:7-22 | a session starts with no palettes, no tiles, the default map and no selection |
| `MapEditor.CurrentTileEntry` | src/MapEditorProvider.tsx:25-28 | the current entry is absent exactly when nothing is selected |
| `MapEditor.SelectionIsColumnThenRow` | src/MapEditorProvider.tsx:27 | selecting (x, y) yields the cell in column x of row y: the map is indexed by y first, then x |
| `MapEditor.InitialSelection` | src/MapEditorProvider.tsx:9-28 | at start there is no current entry; selecting any in-range cell of the initial map yields the default entry |
| `AppSession.AfterTileUpload` | src/App.tsx:130-137 | a tile upload grows the application's tiles by the decoded count, keeps the old tiles as a prefix, and leaves the palettes alone |
| `AppSession.AfterPaletteUpload` | src/App.tsx:149-158 | a palette upload with an odd-length file leaves the state as it was; otherwise it grows the palettes by the decoded count, keeps the old ones as a prefix, and leaves the tiles alone |
| `AppSession.ConsistentInvariant` | src/App.tsx:8-9 | the application's collections start empty, so they hold only well-formed tiles and 16-colour palettes, and every tile or palette upload keeps it so |
| `AppSession.ConsistentIsDrawable` | src/App.tsx:61-62 | in such a state, with a whole-number palette index below the palette count, every tile has 64 pixels and every pixel selects a colour of that palette, so the lookup at src/App.tsx:112 never misses |
| `AppSession.FractionalIndexPassesGuard` | src/App.tsx:61 | the guard as written lets the stored index 1.5 through with two palettes, though 1.5 names no palette |
| `AppSession.CorrectedGuardIsDrawable` | src/App.tsx:61-62 | a guard that also demands a whole number only lets through indices that name a palette, and drawing with that palette cannot miss |

## Left out

- The React layer is not modelled: components, `useState`, `useEffect`, `useRef`, the context, the `useMapEditor` hook and its error for use outside a provider, and src/main.tsx. It is UI plumbing.
- The file picker and the asynchronous reads are not modelled: `file.arrayBuffer()`, `Promise.all` and the `files === null` early return. Each file is given as an in-memory byte sequence.
- A rejected palette upload is modelled only as "state unchanged". The unhandled promise rejection itself is not modelled.
- Host byte order of `Uint16Array` is fixed to little-endian.
- Canvas details are not modelled: `getContext`, the null-canvas and null-context early returns, and the CSS `rgb(...)` strings. A colour is written straight into the pixel array.
- The draw methods take any canvas and clip like the 2-D context does. The canvas sizes the two views create are stated as functions, and lemmas show that every block fits inside them.
- The palette-number input element is not modelled. The stored index is a real number, `max(0, typed value)` (src/App.tsx:77), and `DrawTiles` takes the chosen palette directly.
- `TileSheet.DrawTiles`: requires every tile to have 64 pixels and every pixel to select an existing palette colour. The source would throw while destructuring a missing colour. This always holds for the state the two upload handlers build, given a whole-number palette index below the palette count (`AppSession.ConsistentInvariant`, `AppSession.ConsistentIsDrawable`).
- `AppSession.ConsistentIsDrawable`: covers whole-number palette indices only. The guard at src/App.tsx:61 also lets a fractional stored index through, for which no palette is drawn with and src/App.tsx:112 throws; see Findings.
- The application component and the map-editor provider hold separate collections. `AppSession.AppState` is the application's (src/App.tsx:8-9), which the handlers change. `MapEditor.EditorState` is the provider's (src/MapEditorProvider.tsx:7-22), whose palettes and tiles nothing in src/App.tsx or src/MapEditorProvider.tsx ever changes; they stay empty.
- `MapEditor.CurrentTileEntry`: requires a present selection to lie inside the 32x32 map. The source throws for a missing row and yields `undefined` for a missing column, and the code that sets the selection is not part of this model.
- Tile-map rendering with flips and palette indirection, and the selected-cell inspector, are not modelled. Neither appears in src/App.tsx or src/MapEditorProvider.tsx.
- Changing a tile-map cell is not modelled. `setTileMap` is never called in src/App.tsx or src/MapEditorProvider.tsx.
- Deduplication of uploaded tiles and palettes is not modelled. It is only a todo in the source.
- Reference sharing in the initial map is not modelled. The `.map` callback at src/MapEditorProvider.tsx:10-16 evaluates the entry literal once per row, so there are 32 entry objects, each shared by the 32 cells of its row. The model holds values, and no code in src/App.tsx or src/MapEditorProvider.tsx mutates a cell.
- The fixed constants of the callers are generalised. The tile view uses magnification 2 and the palette view block size 10; the model proves its results for every magnification and block size.

## Findings

| source | as written | input that shows it | evidently intended | confidence | as-written member | corrected member |
|---|---|---|---|---|---|---|
| src/App.tsx:61 | drawing is skipped only when `selectedPaletteIndex >= palettes.length`, and src/App.tsx:77 stores `Math.max(0, Number(value))`, which can be fractional | two palettes and one tile loaded, and 1.5 typed as the palette number: the guard passes, `palettes[1.5]` is undefined, and the destructuring at src/App.tsx:112 throws a TypeError | draw only with a whole-number index below the palette count | medium, not executed | `AppSession.FractionalIndexPassesGuard` | `AppSession.CorrectedGuardIsDrawable` |
