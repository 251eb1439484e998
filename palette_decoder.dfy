/**
 * Decoding a palette file: the buffer is read as 16-bit little-endian words,
 * every run of 16 words becomes one palette, and a trailing partial run is
 * dropped.
 */
module PaletteDecoder {
  import opened Wrappers
  import opened Colors

  /** A palette is meant to hold exactly 16 colours. */
  type Palette = seq<RGB>

  /** Reading a buffer of odd length as 16-bit words fails (a RangeError). */
  datatype DecodeError = OddByteLength

  /** The 16-bit word whose low byte is `lo` and high byte is `hi`. */
  function Word(lo: bv8, hi: bv8): (w: bv16)
    ensures w & 0xFF == lo as bv16 && w >> 8 == hi as bv16
  {
    (hi as bv16 << 8) | lo as bv16
  }

  /** The buffer as little-endian 16-bit words: byte 2i is the low half of word i. */
  function Words(bytes: seq<bv8>): (ws: seq<bv16>)
    requires |bytes| % 2 == 0
    ensures |ws| == |bytes| / 2
    ensures forall i :: 0 <= i < |ws| ==> ws[i] & 0xFF == bytes[2 * i] as bv16
    ensures forall i :: 0 <= i < |ws| ==> ws[i] >> 8 == bytes[2 * i + 1] as bv16
  {
    seq(|bytes| / 2, i requires 0 <= i < |bytes| / 2 => Word(bytes[2 * i], bytes[2 * i + 1]))
  }

  /** The colours of a run of words, in order: one valid colour per word. */
  function ColorsOf(ws: seq<bv16>): (cs: seq<RGB>)
    ensures |cs| == |ws|
    ensures forall i :: 0 <= i < |cs| ==> IsColor(cs[i])
  {
    seq(|ws|, i requires 0 <= i < |ws| => DecodeColor(ws[i]))
  }

  /** Reference definition: one palette per full run of 16 words. */
  function PalettesOf(ws: seq<bv16>): (ps: seq<Palette>)
    ensures |ps| == |ws| / 16
    decreases |ws|
  {
    if |ws| < 16 then []
    else
      assert |ws[16..]| / 16 + 1 == |ws| / 16;
      [ColorsOf(ws[..16])] + PalettesOf(ws[16..])
  }

  /**
   * W words give floor(W / 16) palettes of 16 colours each, and colour i of
   * palette k is decoded from word 16k + i alone.
   */
  lemma {:induction false} PalettesOfShape(ws: seq<bv16>)
    ensures |PalettesOf(ws)| == |ws| / 16
    ensures forall k :: 0 <= k < |ws| / 16 ==> |PalettesOf(ws)[k]| == 16
    ensures forall k, i :: 0 <= k < |ws| / 16 && 0 <= i < 16 ==>
              PalettesOf(ws)[k][i] == DecodeColor(ws[16 * k + i])
    decreases |ws|
  {
    if |ws| >= 16 {
      var rest := ws[16..];
      PalettesOfShape(rest);
      var ps, rp := PalettesOf(ws), PalettesOf(rest);
      assert ps == [ColorsOf(ws[..16])] + rp;
      assert |rest| / 16 + 1 == |ws| / 16;
      forall k, i | 0 <= k < |ws| / 16 && 0 <= i < 16
        ensures ps[k][i] == DecodeColor(ws[16 * k + i])
      {
        if k > 0 {
          assert ps[k] == rp[k - 1];
          assert rest[16 * (k - 1) + i] == ws[16 * k + i];
        }
      }
    }
  }

  /** A well-formed palette: exactly 16 colours, every channel in [0, 255]. */
  predicate ValidPalette(p: Palette) {
    |p| == 16 && forall i :: 0 <= i < |p| ==> IsColor(p[i])
  }

  /** Every decoded palette is well formed. */
  lemma {:induction false} DecodedPalettesValid(ws: seq<bv16>)
    ensures forall p :: p in PalettesOf(ws) ==> ValidPalette(p)
    decreases |ws|
  {
    if |ws| >= 16 {
      DecodedPalettesValid(ws[16..]);
      assert PalettesOf(ws) == [ColorsOf(ws[..16])] + PalettesOf(ws[16..]);
    }
  }

  /** A buffer of zero bytes decodes to black palettes only. */
  lemma {:induction false} ZeroBufferIsBlack(bytes: seq<bv8>)
    requires |bytes| % 2 == 0
    requires forall j :: 0 <= j < |bytes| ==> bytes[j] == 0
    ensures forall p, c :: p in PalettesOf(Words(bytes)) && c in p ==> c == Black
  {
    var ws := Words(bytes);
    PalettesOfShape(ws);
    forall k, i | 0 <= k < |PalettesOf(ws)| && 0 <= i < |PalettesOf(ws)[k]|
      ensures PalettesOf(ws)[k][i] == Black
    {
      var j := 16 * k + i;
      assert ws[j] == Word(0, 0) == 0;
      DecodeColorExamples();
    }
  }

  /** One pass of the reader's inner loop: the 16 words from `curr` decoded into colours. */
  method DecodePalette(shorts: seq<bv16>, curr: nat) returns (colors: seq<RGB>)
    requires curr + 16 <= |shorts|
    ensures colors == ColorsOf(shorts[curr..curr + 16])
  {
    colors := [];
    for i := 0 to 16
      invariant colors == ColorsOf(shorts[curr..curr + i])
    {
      var short := shorts[curr + i];
      var rb := (short & 0x1F) as int;
      var gb := ((short >> 5) & 0x1F) as int;
      var bb := ((short >> 10) & 0x1F) as int;
      var r := rb * 255 / 31;
      var g := gb * 255 / 31;
      var b := bb * 255 / 31;
      colors := colors + [RGB(r, g, b)];
      assert shorts[curr..curr + i + 1] == shorts[curr..curr + i] + [short];
    }
  }

  /**
   * The upload reader: reads the buffer as words, then takes 16 words at a
   * time while at least 16 remain, decoding each word into a colour.
   */
  method FileToPalettes(bytes: seq<bv8>) returns (result: Result<seq<Palette>, DecodeError>)
    ensures result.Failure? <==> |bytes| % 2 == 1
    ensures result.Success? ==> result.value == PalettesOf(Words(bytes))
  {
    if |bytes| % 2 == 1 {
      return Failure(OddByteLength);
    }
    var shorts := Words(bytes);
    var palettes: seq<Palette> := [];
    var curr := 0;
    while curr <= |shorts| - 16
      invariant 0 <= curr <= |shorts|
      invariant palettes + PalettesOf(shorts[curr..]) == PalettesOf(shorts)
      decreases |shorts| - curr
    {
      var colors := DecodePalette(shorts, curr);
      assert shorts[curr..][..16] == shorts[curr..curr + 16];
      assert shorts[curr..][16..] == shorts[curr + 16..];
      curr := curr + 16;
      palettes := palettes + [colors];
    }
    return Success(palettes);
  }
}
