/**
 * Spectrum 512: the rule that picks one of a scanline's three 16-colour
 * palettes for each pixel, and the two decompressors of the compressed (SPC)
 * format, one for the contiguous bitplane image and one for the masked palette
 * table.
 */
module Spectrum512 {
  import opened Results
  import opened Bits
  import opened Rle
  import opened SpectrumRle

  /** `IMAGE_HEIGHT * 160`: four contiguous planes of 320x199 pixels. */
  const ImageBytes: nat := 31840

  /** `COLORS_PER_SCANLINE * IMAGE_HEIGHT * 2`: 48 colour words for each of 199 scanlines. */
  const PaletteBytes: nat := 19104

  /** `COLORS_PER_PALETTE`: one mask word covers the sixteen colours of a palette. */
  const PaletteColors: nat := 16

  // ---------------------------------------------------------------------------
  // getPaletteColorOffset

  /** The x position where colour c switches from the first palette of the scanline to the second. */
  function Switch(c: nat): int
  {
    if c % 2 == 1 then 10 * c - 5 else 10 * c + 1
  }

  /**
   * `getPaletteColorOffset(x, y, c)`: the palette-table entry for colour c at
   * pixel (x, y). Colour c uses the scanline's first palette left of
   * `Switch(c)`, the second for the next 160 pixels, the third after that.
   */
  function PaletteColorOffset(x: int, y: int, c: nat): (offset: int)
    ensures x < Switch(c) ==> offset == 48 * y + c
    ensures Switch(c) <= x < Switch(c) + 160 ==> offset == 48 * y + 16 + c
    ensures Switch(c) + 160 <= x ==> offset == 48 * y + 32 + c
    ensures c < 16 ==> 48 * y <= offset < 48 * y + 48
  {
    var x1 := Switch(c);
    var c' := if x >= x1 && x < x1 + 160 then c + 16 else if x >= x1 + 160 then c + 32 else c;
    c' + y * 48
  }

  /** Distinct colours of one pixel never share a palette-table entry. */
  lemma OffsetInjective(x: int, y: int, c1: nat, c2: nat)
    requires c1 < 16 && c2 < 16 && c1 != c2
    ensures PaletteColorOffset(x, y, c1) != PaletteColorOffset(x, y, c2)
  {
  }

  /** Moving right along a scanline never moves a colour back to an earlier palette. */
  lemma OffsetMonotone(x1: int, x2: int, y: int, c: nat)
    requires x1 <= x2
    ensures PaletteColorOffset(x1, y, c) <= PaletteColorOffset(x2, y, c)
  {
  }

  // ---------------------------------------------------------------------------
  // decompressImage

  /**
   * The first `n` bytes of `s` in a zero-filled buffer of `n` bytes: what a
   * Uint8Array of that size holds after `s` is written into it from the
   * start, writes past its end being dropped.
   */
  function Fit(s: seq<byte>, n: nat): (out: seq<byte>)
    ensures |out| == n
    ensures forall i :: 0 <= i < n ==> out[i] == if i < |s| then s[i] else 0
  {
    if |s| >= n then s[..n] else s + seq(n - |s|, _ => 0)
  }

  /** `decompressImage(buffer, byteOffset, byteLength)` on the `byteLength` bytes of the view. */
  function DecompressImage(src: seq<byte>): (r: Result<seq<byte>, JsError>)
    ensures r.Ok? <==> Stream(Spc, src, 0).Ok?
    ensures r.Err? ==> r.error == RangeError
    ensures r.Ok? ==> r.value == Fit(Stream(Spc, src, 0).value, ImageBytes)
  {
    var s :- Stream(Spc, src, 0);
    Ok(Fit(s, ImageBytes))
  }

  /** An SPC-encoded image of exactly 31840 bytes decompresses to itself. */
  lemma ImageRoundTrip(ts: seq<Token>, rest: seq<byte>)
    requires AllEncodable(ts) && |rest| <= 1 && |Expand(ts)| == ImageBytes
    ensures DecompressImage(Encode(Spc, ts) + rest) == Ok(Expand(ts))
  {
    RoundTrip(Spc, ts, rest);
    assert Expand(ts)[..ImageBytes] == Expand(ts);
  }

  // ---------------------------------------------------------------------------
  // decompressPalette

  /**
   * The `n` colour words a mask stands for, LSB first: a set bit copies the
   * next source word, a clear bit gives 0. Also returns where the source
   * continues. Reading past the source throws RangeError.
   */
  function MaskedWords(src: seq<byte>, pos: nat, mask: nat, n: nat): (r: Result<(seq<byte>, nat), JsError>)
    requires pos <= |src|
    ensures r.Ok? ==> |r.value.0| == 2 * n && pos <= r.value.1 <= |src|
    ensures r.Err? ==> r.error == RangeError
    decreases n
  {
    if n == 0 then Ok(([], pos))
    else if mask % 2 == 1 then
      if pos + 2 > |src| then Err(RangeError)
      else
        var rest :- MaskedWords(src, pos + 2, mask / 2, n - 1);
        Ok((src[pos .. pos + 2] + rest.0, rest.1))
    else
      var rest :- MaskedWords(src, pos, mask / 2, n - 1);
      Ok(([0, 0] + rest.0, rest.1))
  }

  /** One palette from `pos`: the mask word, then the words it selects. */
  function GroupAt(src: seq<byte>, pos: nat): (r: Result<(seq<byte>, nat), JsError>)
    requires pos <= |src|
    ensures r.Ok? ==> |r.value.0| == 32 && pos + 2 <= r.value.1 <= |src|
    ensures r.Err? ==> r.error == RangeError
  {
    if pos + 2 > |src| then Err(RangeError)
    else MaskedWords(src, pos + 2, Be16(src[pos], src[pos + 1]), PaletteColors)
  }

  /** The words decoded from `pos` to the end of the source, sixteen per mask word. */
  function PaletteStream(src: seq<byte>, pos: nat): (r: Result<seq<byte>, JsError>)
    requires pos <= |src|
    ensures r.Err? ==> r.error == RangeError
    decreases |src| - pos
  {
    if pos >= |src| then Ok([])
    else
      match GroupAt(src, pos)
      case Err(e) => Err(e)
      case Ok((words, next)) => Prepend(words, PaletteStream(src, next))
  }

  /**
   * `decompressPalette(buffer, byteOffset, byteLength)`: the decoded words in a
   * zeroed table of 19104 bytes; `setUint16` past the end of the table throws.
   */
  function DecompressPalette(src: seq<byte>): (r: Result<seq<byte>, JsError>)
    ensures r.Ok? <==> PaletteStream(src, 0).Ok? && |PaletteStream(src, 0).value| <= PaletteBytes
    ensures r.Err? ==> r.error == RangeError
    ensures r.Ok? ==> |r.value| == PaletteBytes
    ensures r.Ok? ==> r.value == Fit(PaletteStream(src, 0).value, PaletteBytes)
  {
    var words :- PaletteStream(src, 0);
    if |words| > PaletteBytes then Err(RangeError) else Ok(Fit(words, PaletteBytes))
  }

  /** Whether a colour word is worth storing: only non-zero words get a mask bit. */
  predicate Stored(g: seq<byte>)
    requires |g| >= 2
  {
    g[..2] != [0, 0]
  }

  /** The mask of a run of words: bit i set when word i is non-zero. */
  function MaskOf(g: seq<byte>): (m: nat)
    requires |g| % 2 == 0
    ensures m < Pow2(|g| / 2)
    decreases |g|
  {
    if |g| == 0 then 0 else (if Stored(g) then 1 else 0) + 2 * MaskOf(g[2..])
  }

  /** The non-zero words of a run, in order. */
  function Kept(g: seq<byte>): seq<byte>
    requires |g| % 2 == 0
    decreases |g|
  {
    if |g| == 0 then [] else (if Stored(g) then g[..2] else []) + Kept(g[2..])
  }

  /** A 16-word palette compressed as the decompressor expects: mask word, then the non-zero words. */
  function EncodeGroup(g: seq<byte>): (bs: seq<byte>)
    requires |g| == 32
    ensures |bs| >= 2
  {
    assert Pow2(16) == 65536 by {
      assert Pow2(8) == 256;
    }
    Be16Bytes(MaskOf(g)) + Kept(g)
  }

  /** A palette table compressed one 16-word palette at a time. */
  function EncodePalette(p: seq<byte>): seq<byte>
    requires |p| % 32 == 0
    decreases |p|
  {
    if |p| == 0 then [] else EncodeGroup(p[..32]) + EncodePalette(p[32..])
  }

  /** A mask and the kept words decode back to the words they were made from. */
  lemma {:induction false} GroupRoundTrip(g: seq<byte>, src: seq<byte>, pos: nat)
    requires |g| % 2 == 0 && pos + |Kept(g)| <= |src| && src[pos .. pos + |Kept(g)|] == Kept(g)
    ensures MaskedWords(src, pos, MaskOf(g), |g| / 2) == Ok((g, pos + |Kept(g)|))
    decreases |g|
  {
    if |g| > 0 {
      var head := if Stored(g) then g[..2] else [];
      var tail := Kept(g[2..]);
      SliceSplit(src, pos, head, tail);
      GroupRoundTrip(g[2..], src, pos + |head|);
      assert MaskOf(g) / 2 == MaskOf(g[2..]);
      if !Stored(g) {
        assert g == [0, 0] + g[2..];
      } else {
        assert g == g[..2] + g[2..];
      }
    }
  }

  /** A mask word at `pos` followed by the words it keeps decodes to the sixteen words of the palette. */
  lemma GroupStep(g: seq<byte>, src: seq<byte>, pos: nat, next: nat)
    requires |g| == 32 && next == pos + 2 + |Kept(g)| <= |src|
    requires Be16(src[pos], src[pos + 1]) == MaskOf(g) && src[pos + 2 .. next] == Kept(g)
    ensures GroupAt(src, pos) == Ok((g, next))
  {
    GroupRoundTrip(g, src, pos + 2);
    assert GroupAt(src, pos) == MaskedWords(src, pos + 2, MaskOf(g), |g| / 2);
  }

  /** A compressed palette at `pos`: its mask word, then its kept words. */
  lemma GroupHeader(g: seq<byte>, src: seq<byte>, pos: nat)
    requires |g| == 32 && pos + |EncodeGroup(g)| <= |src|
    requires src[pos .. pos + |EncodeGroup(g)|] == EncodeGroup(g)
    ensures |EncodeGroup(g)| == 2 + |Kept(g)| && pos + 2 + |Kept(g)| <= |src|
    ensures Be16(src[pos], src[pos + 1]) == MaskOf(g)
    ensures src[pos + 2 .. pos + 2 + |Kept(g)|] == Kept(g)
  {
    assert Pow2(16) == 65536 by {
      assert Pow2(8) == 256;
    }
    var head := Be16Bytes(MaskOf(g));
    assert EncodeGroup(g) == head + Kept(g);
    SliceSplit(src, pos, head, Kept(g));
    assert src[pos] == head[0] && src[pos + 1] == head[1];
  }

  /** `PaletteStream` one palette off the front. */
  lemma StreamUnfold(src: seq<byte>, pos: nat, g: seq<byte>, next: nat)
    requires pos < |src| && GroupAt(src, pos) == Ok((g, next))
    ensures PaletteStream(src, pos) == Prepend(g, PaletteStream(src, next))
  {
  }

  /** `EncodePalette` one palette off the front. */
  lemma UnfoldPalette(p: seq<byte>)
    requires |p| % 32 == 0 && |p| > 0
    ensures |p| >= 32 && |p[32..]| % 32 == 0
    ensures EncodePalette(p) == EncodeGroup(p[..32]) + EncodePalette(p[32..])
  {
  }

  /** A compressed palette table that fills the rest of the source decodes to the table. */
  lemma {:induction false} PaletteStreamRoundTrip(p: seq<byte>, src: seq<byte>, pos: nat)
    requires |p| % 32 == 0 && |src| == pos + |EncodePalette(p)|
    requires src[pos..] == EncodePalette(p)
    ensures PaletteStream(src, pos) == Ok(p)
    decreases |p|
  {
    if |p| > 0 {
      var g, rest, next := SplitPalette(p, src, pos);
      PaletteStreamRoundTrip(rest, src, next);
      StreamUnfold(src, pos, g, next);
    }
  }

  /** A compressed table at `pos`: its first palette `g` decodes up to `next`, where the rest's encoding starts. */
  lemma SplitPalette(p: seq<byte>, src: seq<byte>, pos: nat) returns (g: seq<byte>, rest: seq<byte>, next: nat)
    requires |p| % 32 == 0 && |p| > 0 && |src| == pos + |EncodePalette(p)|
    requires src[pos..] == EncodePalette(p)
    ensures p == g + rest && |rest| % 32 == 0 && |rest| < |p|
    ensures pos < |src| && GroupAt(src, pos) == Ok((g, next))
    ensures |src| == next + |EncodePalette(rest)| && src[next..] == EncodePalette(rest)
  {
    g, rest, next := SplitTable(p, src, pos);
    GroupHeader(g, src, pos);
    GroupStep(g, src, pos, next);
  }

  /** A compressed table at `pos`: its first palette's encoding up to `next`, the rest's from there. */
  lemma SplitTable(p: seq<byte>, src: seq<byte>, pos: nat) returns (g: seq<byte>, rest: seq<byte>, next: nat)
    requires |p| % 32 == 0 && |p| > 0 && |src| == pos + |EncodePalette(p)|
    requires src[pos..] == EncodePalette(p)
    ensures p == g + rest && |g| == 32 && |rest| % 32 == 0 && |rest| < |p|
    ensures next == pos + |EncodeGroup(g)| <= |src| && src[pos .. next] == EncodeGroup(g)
    ensures |src| == next + |EncodePalette(rest)| && src[next..] == EncodePalette(rest)
  {
    UnfoldPalette(p);
    g, rest := p[..32], p[32..];
    next := pos + |EncodeGroup(g)|;
    SplitRest(src, pos, EncodeGroup(g), EncodePalette(rest), next);
  }

  /** The palette decompressor inverts the compressor on every full 199-line table. */
  lemma PaletteRoundTrip(p: seq<byte>)
    requires |p| == PaletteBytes
    ensures DecompressPalette(EncodePalette(p)) == Ok(p)
  {
    var src := EncodePalette(p);
    assert src[0..] == src;
    PaletteStreamRoundTrip(p, src, 0);
    assert Fit(p, PaletteBytes) == p;
  }
}
