/**
 * Decoding a tile file: every run of 32 bytes becomes one 8x8 tile of 64
 * 4-bit colour indices, two per byte with the low nibble first (linear
 * packing, not bit planes); a trailing partial run is dropped.
 */
module TileDecoder {
  /** A tile is meant to hold 64 colour indices in row-major 8x8 order. */
  type Tile = seq<int>

  /** The first pixel a byte holds. */
  function Low(c: bv8): (p: int)
    ensures 0 <= p < 16
  {
    (c & 0xF) as int
  }

  /** The second pixel a byte holds. */
  function High(c: bv8): (p: int)
    ensures 0 <= p < 16
  {
    ((c >> 4) & 0xF) as int
  }

  /** The two nibbles together are the whole byte: unpacking loses nothing. */
  lemma NibblesMakeByte(c: bv8)
    ensures Low(c) + 16 * High(c) == c as int
  {
    var lo, hi := c & 0xF, (c >> 4) & 0xF;
    assert c == lo | (hi << 4);
    assert (lo | (hi << 4)) as int == lo as int + 16 * hi as int by {
      assert lo | (hi << 4) == lo + hi * 16;
    }
  }

  /** Reference definition of the pixels a run of bytes holds: two colour indices per byte. */
  function Nibbles(bs: seq<bv8>): (px: seq<int>)
    ensures |px| == 2 * |bs|
    ensures forall j :: 0 <= j < |px| ==> 0 <= px[j] < 16
  {
    if bs == [] then [] else [Low(bs[0]), High(bs[0])] + Nibbles(bs[1..])
  }

  lemma {:induction false} NibblesAt(bs: seq<bv8>)
    ensures |Nibbles(bs)| == 2 * |bs|
    ensures forall i :: 0 <= i < |bs| ==>
              Nibbles(bs)[2 * i] == Low(bs[i]) && Nibbles(bs)[2 * i + 1] == High(bs[i])
  {
    if bs != [] {
      NibblesAt(bs[1..]);
      forall i | 1 <= i < |bs|
        ensures Nibbles(bs)[2 * i] == Low(bs[i]) && Nibbles(bs)[2 * i + 1] == High(bs[i])
      {
        assert Nibbles(bs)[2 * i] == Nibbles(bs[1..])[2 * (i - 1)];
        assert Nibbles(bs)[2 * i + 1] == Nibbles(bs[1..])[2 * (i - 1) + 1];
      }
    }
  }

  /** A well-formed tile: 64 pixels, each a colour index in [0, 15]. */
  predicate ValidTile(t: Tile) {
    |t| == 64 && forall j :: 0 <= j < |t| ==> 0 <= t[j] < 16
  }

  /**
   * Reference definition: one tile per full run of 32 bytes; a trailing
   * partial run yields nothing.
   */
  function TilesOf(bs: seq<bv8>): (ts: seq<Tile>)
    ensures |ts| == |bs| / 32
    decreases |bs|
  {
    if |bs| < 32 then []
    else
      assert |bs[32..]| / 32 + 1 == |bs| / 32;
      [Nibbles(bs[..32])] + TilesOf(bs[32..])
  }

  /**
   * L bytes give floor(L / 32) tiles of 64 pixels each; pixel 2i of tile k is
   * the low nibble of byte 32k + i and pixel 2i + 1 its high nibble.
   */
  lemma {:induction false} TilesOfShape(bs: seq<bv8>)
    ensures |TilesOf(bs)| == |bs| / 32
    ensures forall k :: 0 <= k < |bs| / 32 ==> |TilesOf(bs)[k]| == 64
    ensures forall k, i :: 0 <= k < |bs| / 32 && 0 <= i < 32 ==>
              TilesOf(bs)[k][2 * i] == Low(bs[32 * k + i]) &&
              TilesOf(bs)[k][2 * i + 1] == High(bs[32 * k + i])
    decreases |bs|
  {
    if |bs| >= 32 {
      var rest := bs[32..];
      TilesOfShape(rest);
      NibblesAt(bs[..32]);
      TilesOfStep(bs);
      var ts, rt := TilesOf(bs), TilesOf(rest);
      forall k, i | 0 <= k < |bs| / 32 && 0 <= i < 32
        ensures ts[k][2 * i] == Low(bs[32 * k + i])
        ensures ts[k][2 * i + 1] == High(bs[32 * k + i])
      {
        if k > 0 {
          assert ts[k] == rt[k - 1];
          assert rest[32 * (k - 1) + i] == bs[32 * k + i];
        }
      }
    }
  }

  /**
   * Every decoded tile is well formed: 64 pixels, each selecting one of the
   * 16 colours of a palette.
   */
  lemma {:induction false} DecodedTilesValid(bs: seq<bv8>)
    ensures forall t :: t in TilesOf(bs) ==> ValidTile(t)
    decreases |bs|
  {
    if |bs| >= 32 {
      DecodedTilesValid(bs[32..]);
      TilesOfStep(bs);
    }
  }

  /** A buffer of zero bytes decodes to tiles of colour index 0 only. */
  lemma {:induction false} ZeroBufferIsBlank(bs: seq<bv8>)
    requires forall j :: 0 <= j < |bs| ==> bs[j] == 0
    ensures forall t, px :: t in TilesOf(bs) && px in t ==> px == 0
  {
    TilesOfShape(bs);
    forall k, j | 0 <= k < |TilesOf(bs)| && 0 <= j < |TilesOf(bs)[k]|
      ensures TilesOf(bs)[k][j] == 0
    {
      var i := j / 2;
      assert Low(0) == 0 && High(0) == 0;
      assert TilesOf(bs)[k][2 * i] == Low(bs[32 * k + i]);
      assert j == 2 * i || j == 2 * i + 1;
    }
  }

  /** The bytes 0x10, 0x00, ..., 0x00 give one tile: pixel 1 is 1, every other pixel 0. */
  lemma {:induction false} SingleSetNibble(bs: seq<bv8>)
    requires |bs| == 32 && bs[0] == 0x10
    requires forall j :: 1 <= j < 32 ==> bs[j] == 0
    ensures |TilesOf(bs)| == 1
    ensures TilesOf(bs)[0] == [0, 1] + seq(62, _ => 0)
  {
    TilesOfShape(bs);
    var t := TilesOf(bs)[0];
    forall j | 0 <= j < 64
      ensures t[j] == ([0, 1] + seq(62, _ => 0))[j]
    {
      var i := j / 2;
      assert Low(0) == 0 && High(0) == 0 && Low(0x10) == 0 && High(0x10) == 1;
      assert t[2 * i] == Low(bs[i]);
      assert j == 2 * i || j == 2 * i + 1;
    }
  }

  lemma NibblesStep(bs: seq<bv8>)
    requires bs != []
    ensures Nibbles(bs) == [Low(bs[0]), High(bs[0])] + Nibbles(bs[1..])
  {
  }

  lemma TilesOfStep(bs: seq<bv8>)
    requires |bs| >= 32
    ensures TilesOf(bs) == [Nibbles(bs[..32])] + TilesOf(bs[32..])
  {
  }

  /** One pass of the reader's inner loop: the 32 bytes from `curr` unpacked, low nibble first. */
  method UnpackTile(bytes: seq<bv8>, curr: nat) returns (tile: seq<int>)
    requires curr + 32 <= |bytes|
    ensures tile == Nibbles(bytes[curr..curr + 32])
  {
    ghost var chunk := bytes[curr..curr + 32];
    tile := [];
    for i := 0 to 32
      invariant tile + Nibbles(chunk[i..]) == Nibbles(chunk)
    {
      var c := bytes[curr + i];
      assert chunk[i..][0] == c && chunk[i..][1..] == chunk[i + 1..];
      NibblesStep(chunk[i..]);
      tile := tile + [Low(c)];
      tile := tile + [High(c)];
    }
    assert chunk[32..] == [];
  }

  /**
   * The upload reader: takes 32 bytes at a time while at least 32 remain and
   * pushes the low then the high nibble of each byte.
   */
  method FileToTiles(bytes: seq<bv8>) returns (tiles: seq<Tile>)
    ensures tiles == TilesOf(bytes)
  {
    tiles := [];
    var curr := 0;
    while curr <= |bytes| - 32
      invariant 0 <= curr <= |bytes|
      invariant tiles + TilesOf(bytes[curr..]) == TilesOf(bytes)
      decreases |bytes| - curr
    {
      var tile := UnpackTile(bytes, curr);
      ghost var rest := bytes[curr..];
      assert rest[..32] == bytes[curr..curr + 32] && rest[32..] == bytes[curr + 32..];
      TilesOfStep(rest);
      tiles := tiles + [tile];
      curr := curr + 32;
    }
  }
}
