/**
 * What an upload does to the loaded collections: each chosen file is decoded,
 * the results are concatenated in file order, and appended after what is
 * already loaded. Nothing is deduplicated.
 */
module Upload {
  import opened PaletteDecoder
  import opened TileDecoder

  /**
   * Concatenation of a list of lists, in order (the `.flat()` of the upload
   * handlers): no item of any list is lost.
   */
  function Flatten<T>(xss: seq<seq<T>>): (r: seq<T>)
    ensures forall j, i :: 0 <= j < |xss| && 0 <= i < |xss[j]| ==> xss[j][i] in r
  {
    if xss == [] then []
    else
      assert forall j :: 1 <= j < |xss| ==> xss[j] == xss[1..][j - 1];
      xss[0] + Flatten(xss[1..])
  }

  /** Nor does flattening add anything: every item comes from one of the lists. */
  lemma {:induction false} FlattenFrom<T>(xss: seq<seq<T>>)
    ensures forall k :: 0 <= k < |Flatten(xss)| ==> exists j :: 0 <= j < |xss| && Flatten(xss)[k] in xss[j]
  {
    if xss != [] {
      FlattenFrom(xss[1..]);
      var r, rest := Flatten(xss), Flatten(xss[1..]);
      assert r == xss[0] + rest;
      forall k | 0 <= k < |Flatten(xss)|
        ensures exists j :: 0 <= j < |xss| && Flatten(xss)[k] in xss[j]
      {
        if k < |xss[0]| {
          assert r[k] == xss[0][k];
          assert 0 < |xss| && r[k] in xss[0];
        } else {
          assert r[k] == rest[k - |xss[0]|];
          var j :| 0 <= j < |xss[1..]| && rest[k - |xss[0]|] in xss[1..][j];
          assert r[k] in xss[j + 1];
        }
      }
    } else {
      assert Flatten(xss) == [];
    }
  }

  /** Item i of list j sits in the flattened list right after all items of lists 0 .. j - 1. */
  lemma {:induction false} FlattenAt<T>(xss: seq<seq<T>>, j: nat, i: nat)
    requires j < |xss| && i < |xss[j]|
    ensures |Flatten(xss[..j])| + i < |Flatten(xss)|
    ensures Flatten(xss)[|Flatten(xss[..j])| + i] == xss[j][i]
  {
    if j == 0 {
      assert xss[..0] == [];
      FlattenLength(xss[1..]);
    } else {
      assert xss[..j][0] == xss[0];
      assert xss[..j][1..] == xss[1..][..j - 1];
      FlattenAt(xss[1..], j - 1, i);
    }
  }

  lemma {:induction false} FlattenLength<T>(xss: seq<seq<T>>)
    ensures xss != [] ==> |Flatten(xss)| == |xss[0]| + |Flatten(xss[1..])|
  {
  }

  /** The number of 32-byte groups over all files: the number of tiles, or of palettes, they hold. */
  function GroupCount(files: seq<seq<bv8>>): nat {
    if files == [] then 0 else |files[0]| / 32 + GroupCount(files[1..])
  }

  /** File k contributes |files[k]| / 32 items: the flattened list has GroupCount items in all. */
  lemma {:induction false} FlattenGroups<T>(xss: seq<seq<T>>, files: seq<seq<bv8>>)
    requires |xss| == |files|
    requires forall k :: 0 <= k < |files| ==> |xss[k]| == |files[k]| / 32
    ensures |Flatten(xss)| == GroupCount(files)
  {
    if xss != [] {
      FlattenGroups(xss[1..], files[1..]);
    }
  }

  /**
   * `item` is item i of file j: it sits at position base + GroupCount(files[..j]) + i
   * of r, right after the base collection and the items of files 0 .. j - 1.
   */
  ghost predicate PlacedAt<T>(r: seq<T>, base: nat, files: seq<seq<bv8>>, j: nat, i: nat, item: T)
    requires j <= |files|
  {
    base + GroupCount(files[..j]) + i < |r| && r[base + GroupCount(files[..j]) + i] == item
  }

  /**
   * Appending the decoded files after the old collection: the old collection
   * is an unchanged prefix, the count grows by exactly the number of groups,
   * and every decoded item is placed in file order.
   */
  lemma AppendLayout<T>(existing: seq<T>, decoded: seq<seq<T>>, files: seq<seq<bv8>>)
    requires |decoded| == |files|
    requires forall k :: 0 <= k < |files| ==> |decoded[k]| == |files[k]| / 32
    ensures |existing + Flatten(decoded)| == |existing| + GroupCount(files)
    ensures (existing + Flatten(decoded))[..|existing|] == existing
    ensures forall j, i :: 0 <= j < |files| && 0 <= i < |decoded[j]| ==>
              PlacedAt(existing + Flatten(decoded), |existing|, files, j, i, decoded[j][i])
  {
    FlattenGroups(decoded, files);
    assert (existing + Flatten(decoded))[..|existing|] == existing;
    forall j, i | 0 <= j < |files| && 0 <= i < |decoded[j]|
      ensures PlacedAt(existing + Flatten(decoded), |existing|, files, j, i, decoded[j][i])
    {
      AppendAt(existing, decoded, files, j, i);
    }
  }

  lemma AppendAt<T>(existing: seq<T>, decoded: seq<seq<T>>, files: seq<seq<bv8>>, j: nat, i: nat)
    requires |decoded| == |files|
    requires forall k :: 0 <= k < |files| ==> |decoded[k]| == |files[k]| / 32
    requires j < |files| && i < |decoded[j]|
    ensures PlacedAt(existing + Flatten(decoded), |existing|, files, j, i, decoded[j][i])
  {
    var flat := Flatten(decoded);
    var before := Flatten(decoded[..j]);
    FlattenGroupsPrefix(decoded, files, j);
    assert |before| == GroupCount(files[..j]);
    FlattenAt(decoded, j, i);
    var at := |before| + i;
    assert at < |flat| && flat[at] == decoded[j][i];
    assert (existing + flat)[|existing| + at] == flat[at];
  }

  lemma FlattenGroupsPrefix<T>(decoded: seq<seq<T>>, files: seq<seq<bv8>>, j: nat)
    requires |decoded| == |files| && j <= |files|
    requires forall k :: 0 <= k < |files| ==> |decoded[k]| == |files[k]| / 32
    ensures |Flatten(decoded[..j])| == GroupCount(files[..j])
  {
    FlattenGroups(decoded[..j], files[..j]);
  }

  /** The tiles decoded from each file, in file order: floor(L / 32) from a file of L bytes. */
  function DecodedTiles(files: seq<seq<bv8>>): (d: seq<seq<Tile>>)
    ensures |d| == |files|
    ensures forall k :: 0 <= k < |files| ==> |d[k]| == |files[k]| / 32
  {
    seq(|files|, k requires 0 <= k < |files| => TilesOf(files[k]))
  }

  /** The tile collection after uploading `files`. */
  function UploadTiles(tiles: seq<Tile>, files: seq<seq<bv8>>): seq<Tile> {
    tiles + Flatten(DecodedTiles(files))
  }

  lemma UploadTilesAppends(tiles: seq<Tile>, files: seq<seq<bv8>>)
    ensures |UploadTiles(tiles, files)| == |tiles| + GroupCount(files)
    ensures UploadTiles(tiles, files)[..|tiles|] == tiles
    ensures forall j, i :: 0 <= j < |files| && 0 <= i < |TilesOf(files[j])| ==>
              PlacedAt(UploadTiles(tiles, files), |tiles|, files, j, i, TilesOf(files[j])[i])
  {
    AppendLayout(tiles, DecodedTiles(files), files);
  }

  /** Some file has odd length, so reading it as 16-bit words fails. */
  predicate AnyOddLength(files: seq<seq<bv8>>) {
    exists k :: 0 <= k < |files| && |files[k]| % 2 == 1
  }

  /**
   * The palettes decoded from each file, in file order: floor(L / 32) from a
   * file of L bytes (L / 2 words, 16 words to a palette).
   */
  function DecodedPalettes(files: seq<seq<bv8>>): (d: seq<seq<Palette>>)
    requires !AnyOddLength(files)
    ensures |d| == |files|
    ensures forall k :: 0 <= k < |files| ==> |d[k]| == |files[k]| / 32
  {
    seq(|files|, k requires 0 <= k < |files| => PalettesOf(Words(files[k])))
  }

  /**
   * The palette collection after uploading `files`. If any file fails to
   * decode, the handler stops before updating, and the collection stays as it was.
   */
  function UploadPalettes(palettes: seq<Palette>, files: seq<seq<bv8>>): seq<Palette> {
    if AnyOddLength(files) then palettes
    else palettes + Flatten(DecodedPalettes(files))
  }

  lemma UploadPalettesAppends(palettes: seq<Palette>, files: seq<seq<bv8>>)
    ensures AnyOddLength(files) ==> UploadPalettes(palettes, files) == palettes
    ensures !AnyOddLength(files) ==> |UploadPalettes(palettes, files)| == |palettes| + GroupCount(files)
    ensures UploadPalettes(palettes, files)[..|palettes|] == palettes
    ensures !AnyOddLength(files) ==>
              forall j, i :: 0 <= j < |files| && 0 <= i < |PalettesOf(Words(files[j]))| ==>
                PlacedAt(UploadPalettes(palettes, files), |palettes|, files, j, i, PalettesOf(Words(files[j]))[i])
  {
    if !AnyOddLength(files) {
      AppendLayout(palettes, DecodedPalettes(files), files);
    }
  }

  /** Uploading tiles keeps every loaded tile well formed. */
  lemma UploadKeepsValidTiles(tiles: seq<Tile>, files: seq<seq<bv8>>)
    requires forall t :: t in tiles ==> ValidTile(t)
    ensures forall t :: t in UploadTiles(tiles, files) ==> ValidTile(t)
  {
    var d := DecodedTiles(files);
    FlattenFrom(d);
    forall j | 0 <= j < |files|
      ensures forall t :: t in d[j] ==> ValidTile(t)
    {
      DecodedTilesValid(files[j]);
    }
  }

  /** Uploading palettes keeps every loaded palette well formed, whether the upload succeeds or not. */
  lemma UploadKeepsValidPalettes(palettes: seq<Palette>, files: seq<seq<bv8>>)
    requires forall p :: p in palettes ==> ValidPalette(p)
    ensures forall p :: p in UploadPalettes(palettes, files) ==> ValidPalette(p)
  {
    if !AnyOddLength(files) {
      var d := DecodedPalettes(files);
      FlattenFrom(d);
      forall j | 0 <= j < |files|
        ensures forall p :: p in d[j] ==> ValidPalette(p)
      {
        DecodedPalettesValid(Words(files[j]));
      }
    }
  }
}
