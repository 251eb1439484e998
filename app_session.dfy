/**
 * The collections the application component holds: the palettes and tiles
 * the two upload handlers append to and the tile view draws, and the palette
 * index the tile view draws with.
 */
module AppSession {
  import opened PaletteDecoder
  import opened TileDecoder
  import Upload
  import TileSheet

  datatype AppState = AppState(palettes: seq<Palette>, tiles: seq<Tile>)

  /** Both collections start empty. */
  const InitialApp := AppState([], [])

  /** The tile upload handler: the decoded tiles are appended; the palettes do not change. */
  function AfterTileUpload(s: AppState, files: seq<seq<bv8>>): (s': AppState)
    ensures |s'.tiles| == |s.tiles| + Upload.GroupCount(files) && s'.tiles[..|s.tiles|] == s.tiles
    ensures s'.palettes == s.palettes
  {
    Upload.UploadTilesAppends(s.tiles, files);
    s.(tiles := Upload.UploadTiles(s.tiles, files))
  }

  /**
   * The palette upload handler: the decoded palettes are appended, or, when a
   * file has odd length, the state is left exactly as it was.
   */
  function AfterPaletteUpload(s: AppState, files: seq<seq<bv8>>): (s': AppState)
    ensures Upload.AnyOddLength(files) ==> s' == s
    ensures !Upload.AnyOddLength(files) ==> |s'.palettes| == |s.palettes| + Upload.GroupCount(files)
    ensures s'.palettes[..|s.palettes|] == s.palettes
    ensures s'.tiles == s.tiles
  {
    Upload.UploadPalettesAppends(s.palettes, files);
    s.(palettes := Upload.UploadPalettes(s.palettes, files))
  }

  /** What the loaded collections always satisfy: well-formed tiles and 16-colour palettes. */
  predicate Consistent(s: AppState) {
    (forall t :: t in s.tiles ==> ValidTile(t)) && (forall p :: p in s.palettes ==> ValidPalette(p))
  }

  /** The start state is consistent, and both uploads keep it so, whatever the files hold. */
  lemma {:induction false} ConsistentInvariant(s: AppState, files: seq<seq<bv8>>)
    ensures Consistent(InitialApp)
    ensures Consistent(s) ==> Consistent(AfterTileUpload(s, files))
    ensures Consistent(s) ==> Consistent(AfterPaletteUpload(s, files))
  {
    if Consistent(s) {
      Upload.UploadKeepsValidTiles(s.tiles, files);
      Upload.UploadKeepsValidPalettes(s.palettes, files);
    }
  }

  /**
   * In a consistent state, with a whole-number palette index below the
   * palette count, every tile has its 64 pixels and every pixel selects a
   * colour of that palette.
   */
  lemma ConsistentIsDrawable(s: AppState, p: nat)
    requires Consistent(s) && p < |s.palettes|
    ensures TileSheet.Drawable(s.palettes[p], s.tiles)
  {
    assert s.palettes[p] in s.palettes;
    forall t | 0 <= t < |s.tiles|
      ensures ValidTile(s.tiles[t])
    {
      assert s.tiles[t] in s.tiles;
    }
  }

  /**
   * The tile view's guard as written: drawing is skipped only when the
   * stored index is at least the palette count. The index is stored as
   * max(0, the typed number), so it is never negative but may be fractional.
   */
  predicate GuardPasses(index: real, count: nat) {
    !(index >= count as real)
  }

  /** The index names a palette: a whole number below the palette count. */
  predicate NamesPalette(index: real, count: nat) {
    index.Floor as real == index && 0.0 <= index < count as real
  }

  /**
   * The guard lets a fractional index through: with two palettes, a typed
   * 1.5 passes, yet names no palette, so the palette drawn with is missing.
   */
  lemma FractionalIndexPassesGuard()
    ensures GuardPasses(1.5, 2) && !NamesPalette(1.5, 2)
  {
    assert (1.5).Floor == 1;
  }

  /** The guard as intended: the index must also be a whole number. */
  predicate CorrectedGuardPasses(index: real, count: nat) {
    index.Floor as real == index && !(index >= count as real)
  }

  /**
   * Every non-negative index the corrected guard lets through names a
   * palette, and in a consistent state drawing with that palette cannot miss.
   */
  lemma CorrectedGuardIsDrawable(s: AppState, index: real)
    requires Consistent(s) && 0.0 <= index && CorrectedGuardPasses(index, |s.palettes|)
    ensures NamesPalette(index, |s.palettes|)
    ensures 0 <= index.Floor < |s.palettes| && TileSheet.Drawable(s.palettes[index.Floor], s.tiles)
  {
    ConsistentIsDrawable(s, index.Floor);
  }
}
