/**
 * The map-editor provider's state: its palettes and tiles, the 32x32 tile
 * map, and the optional selected cell, with the lookup of the selected entry.
 */
module MapEditor {
  import opened Wrappers
  import opened PaletteDecoder
  import opened TileDecoder

  const MapSize := 32

  /** One cell of the tile map: which tile, drawn with which palette, mirrored how. */
  datatype TileMapEntry = TileMapEntry(tileIndex: nat, horizontalFlip: bool, verticalFlip: bool, paletteIndex: nat)

  /** Rows first: tileMap[y][x] is the cell in column x of row y. */
  type TileMap = seq<seq<TileMapEntry>>

  datatype Coords = Coords(x: int, y: int)

  datatype EditorState = EditorState(
    palettes: seq<Palette>,
    tiles: seq<Tile>,
    tileMap: TileMap,
    currentTileCoords: Option<Coords>)

  const DefaultEntry := TileMapEntry(1, false, false, 0)

  predicate IsFullMap(m: TileMap) {
    |m| == MapSize && forall y :: 0 <= y < MapSize ==> |m[y]| == MapSize
  }

  /** The map built cell by cell from `cell`, where cell(x, y) is the entry of column x, row y. */
  function BuildMap(cell: (nat, nat) -> TileMapEntry): (m: TileMap)
    ensures IsFullMap(m)
  {
    seq(MapSize, (y: int) requires 0 <= y => seq(MapSize, (x: int) requires 0 <= x => cell(x, y)))
  }

  /** The map a session starts with: 32 rows of 32 default cells. */
  function InitialTileMap(): (m: TileMap)
    ensures IsFullMap(m)
    ensures forall y, x :: 0 <= y < MapSize && 0 <= x < MapSize ==> m[y][x] == DefaultEntry
  {
    BuildMap((x, y) => DefaultEntry)
  }

  /** A session starts with no palettes, no tiles, the default map and no selection. */
  function InitialState(): (s: EditorState)
    ensures s.palettes == [] && s.tiles == [] && s.currentTileCoords == None
    ensures IsFullMap(s.tileMap)
    ensures forall y, x :: 0 <= y < MapSize && 0 <= x < MapSize ==> s.tileMap[y][x] == DefaultEntry
  {
    EditorState([], [], InitialTileMap(), None)
  }

  predicate SelectionInMap(sel: Option<Coords>) {
    sel.Some? ==> 0 <= sel.value.x < MapSize && 0 <= sel.value.y < MapSize
  }

  /** The entry of the selected cell, looked up row y first, then column x; none without a selection. */
  function CurrentTileEntry(s: EditorState): (e: Option<TileMapEntry>)
    requires IsFullMap(s.tileMap) && SelectionInMap(s.currentTileCoords)
    ensures e.None? <==> s.currentTileCoords.None?
  {
    match s.currentTileCoords
    case None => None
    case Some(c) => Some(s.tileMap[c.y][c.x])
  }

  /**
   * Selecting (x, y) shows the cell of column x and row y: for a map built
   * from cell(x, y), the selected entry is cell(x, y), not cell(y, x).
   */
  lemma SelectionIsColumnThenRow(palettes: seq<Palette>, tiles: seq<Tile>,
                                 cell: (nat, nat) -> TileMapEntry, x: nat, y: nat)
    requires x < MapSize && y < MapSize
    ensures CurrentTileEntry(EditorState(palettes, tiles, BuildMap(cell), Some(Coords(x, y))))
            == Some(cell(x, y))
  {
  }

  /** In a fresh session nothing is selected; once a cell is selected its entry is the default one. */
  lemma InitialSelection(c: Coords)
    requires 0 <= c.x < MapSize && 0 <= c.y < MapSize
    ensures CurrentTileEntry(InitialState()) == None
    ensures CurrentTileEntry(InitialState().(currentTileCoords := Some(c))) == Some(DefaultEntry)
  {
  }
}
