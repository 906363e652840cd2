/**
 * The adapters between RGBA ImageData and palette indices:
 * ImageDataIndexedPaletteReader turns each 32-bit pixel into the index of its
 * colour in the palette, and ImageDataIndexedPaletteWriter stores the colour of
 * an index as a 32-bit pixel. Both work from the palette resampled to eight
 * bits per channel and packed into big-endian RGBA words.
 */
module PixelAdapters {
  import opened Results
  import opened Bits
  import opened JsNumbers
  import opened Palette

  /** `palette.resample(8).toValueArray()`: one RGBA word per entry, holes kept. */
  function Lookup(p: IndexedPalette): (t: seq<Option<nat>>)
    requires MaxChannel(p.bitsPerChannel) != 0
    ensures |t| == |p.colors|
    ensures forall i :: 0 <= i < |t| ==> (t[i].Some? <==> p.colors[i].Some?)
  {
    ToValueArray(Resample(p, 8), 8, true)
  }

  /** `Array.prototype.indexOf`: the first entry equal to `v`, or -1; holes never match. */
  function IndexOf(t: seq<Option<nat>>, v: nat): (r: int)
    ensures -1 <= r < |t|
    ensures r == -1 <==> Some(v) !in t
    ensures r >= 0 ==> t[r] == Some(v) && forall j :: 0 <= j < r ==> t[j] != Some(v)
  {
    if |t| == 0 then -1
    else if t[0] == Some(v) then 0
    else
      var k := IndexOf(t[1..], v);
      assert forall j :: 1 <= j < |t| ==> t[j] == t[1..][j - 1];
      assert Some(v) in t <==> Some(v) in t[1..] by {
        assert t == [t[0]] + t[1..];
      }
      if k == -1 then -1 else k + 1
  }

  /**
   * The word `setUint32` stores for `palette[color]`: an index past the end
   * or at a hole yields `undefined`, which converts to 0.
   */
  function Entry(t: seq<Option<nat>>, color: nat): (w: nat)
    requires forall i :: 0 <= i < |t| && t[i].Some? ==> t[i].value < Two32
    ensures w < Two32
    ensures color < |t| && t[color].Some? ==> w == t[color].value
    ensures !(color < |t| && t[color].Some?) ==> w == 0
  {
    if color < |t| && t[color].Some? then t[color].value else 0
  }

  /** Every present entry of a value table is an unsigned 32-bit word. */
  predicate Words(t: seq<Option<nat>>)
  {
    forall i :: 0 <= i < |t| && t[i].Some? ==> t[i].value < Two32
  }

  lemma LookupWords(p: IndexedPalette)
    requires MaxChannel(p.bitsPerChannel) != 0
    ensures Words(Lookup(p))
  {
  }

  // ---------------------------------------------------------------------------
  // ImageDataIndexedPaletteReader

  /** The reader's value table and byte position `#pos`. */
  datatype PixelReader = PixelReader(table: seq<Option<nat>>, pos: nat)

  function NewPixelReader(p: IndexedPalette): PixelReader
    requires MaxChannel(p.bitsPerChannel) != 0
  {
    PixelReader(Lookup(p), 0)
  }

  /**
   * `read()`: the index of the pixel at `#pos`, moving on by four bytes.
   * `getUint32` past the end of the data throws RangeError, and so does a
   * colour that is not in the palette.
   */
  function ReadPixel(data: seq<byte>, r: PixelReader): (res: Result<(nat, PixelReader), JsError>)
    ensures res.Err? ==> res.error == RangeError
    ensures res.Err? <==> r.pos + 4 > |data| || Some(Be32(data[r.pos .. r.pos + 4])) !in r.table
    ensures res.Ok? ==> var (index, r') := res.value;
            && r' == r.(pos := r.pos + 4)
            && index < |r.table| && r.table[index] == Some(Be32(data[r.pos .. r.pos + 4]))
    ensures res.Ok? ==> forall j :: 0 <= j < res.value.0 ==> r.table[j] != Some(Be32(data[r.pos .. r.pos + 4]))
  {
    if r.pos + 4 > |data| then Err(RangeError)
    else
      var color := Be32(data[r.pos .. r.pos + 4]);
      var index := IndexOf(r.table, color);
      if index == -1 then Err(RangeError)
      else Ok((index, r.(pos := r.pos + 4)))
  }

  /** `advance(pixels)`: skips `pixels` pixels without reading them. */
  function Skip(r: PixelReader, pixels: nat): (r': PixelReader)
    ensures r'.table == r.table && r'.pos == r.pos + 4 * pixels
  {
    r.(pos := r.pos + 4 * pixels)
  }

  /** `eof()`: the position has reached the end of the data exactly. */
  predicate Eof(data: seq<byte>, r: PixelReader)
  {
    r.pos == |data|
  }

  /**
   * A reader started at the first pixel is at the end after skipping n
   * pixels exactly when the data holds n pixels, and reading there throws.
   */
  lemma EofAfter(data: seq<byte>, t: seq<Option<nat>>, n: nat)
    ensures Eof(data, Skip(PixelReader(t, 0), n)) <==> |data| == 4 * n
    ensures Eof(data, Skip(PixelReader(t, 0), n)) ==> ReadPixel(data, Skip(PixelReader(t, 0), n)) == Err(RangeError)
  {
  }

  // ---------------------------------------------------------------------------
  // ImageDataIndexedPaletteWriter

  /**
   * `write(color)` at byte position `pos`: the four big-endian bytes of the
   * colour's word replace the pixel, and nothing else changes; `setUint32`
   * past the end of the data throws RangeError.
   */
  function WritePixel(data: seq<byte>, pos: nat, t: seq<Option<nat>>, color: nat): (res: Result<seq<byte>, JsError>)
    requires Words(t)
    ensures res.Err? <==> pos + 4 > |data|
    ensures res.Err? ==> res.error == RangeError
    ensures res.Ok? ==> && |res.value| == |data|
                        && res.value[pos .. pos + 4] == Be32Bytes(Entry(t, color))
                        && forall j :: 0 <= j < |data| && !(pos <= j < pos + 4) ==> res.value[j] == data[j]
  {
    if pos + 4 > |data| then Err(RangeError)
    else
      var out := data[..pos] + Be32Bytes(Entry(t, color)) + data[pos + 4..];
      assert out[pos .. pos + 4] == Be32Bytes(Entry(t, color));
      Ok(out)
  }

  /**
   * The writer and reader are inverse on every present palette entry: the
   * pixel written for index i is read back as the first index holding the
   * same colour, which is i itself when the palette's colours are distinct.
   */
  lemma PixelRoundTrip(data: seq<byte>, pos: nat, t: seq<Option<nat>>, i: nat)
    requires Words(t) && pos + 4 <= |data| && i < |t| && t[i].Some?
    ensures var res := ReadPixel(WritePixel(data, pos, t, i).value, PixelReader(t, pos));
            && res.Ok?
            && t[res.value.0] == t[i]
            && res.value.0 <= i
            && res.value.1 == PixelReader(t, pos + 4)
  {
    var out := WritePixel(data, pos, t, i).value;
    Be32RoundTrip(t[i].value);
    assert Be32(out[pos .. pos + 4]) == t[i].value;
    assert t[i] in t;
  }

  /** With distinct colours the read-back index is exactly the one written. */
  lemma PixelRoundTripDistinct(data: seq<byte>, pos: nat, t: seq<Option<nat>>, i: nat)
    requires Words(t) && pos + 4 <= |data| && i < |t| && t[i].Some?
    requires forall a, b :: 0 <= a < b < |t| && t[a].Some? ==> t[a] != t[b]
    ensures ReadPixel(WritePixel(data, pos, t, i).value, PixelReader(t, pos)) == Ok((i, PixelReader(t, pos + 4)))
  {
    PixelRoundTrip(data, pos, t, i);
  }

  /** Reading a pixel and writing its index back leaves the data unchanged. */
  lemma PixelRoundTripBack(data: seq<byte>, pos: nat, t: seq<Option<nat>>)
    requires Words(t) && ReadPixel(data, PixelReader(t, pos)).Ok?
    ensures var index := ReadPixel(data, PixelReader(t, pos)).value.0;
            WritePixel(data, pos, t, index) == Ok(data)
  {
    var index := ReadPixel(data, PixelReader(t, pos)).value.0;
    var out := WritePixel(data, pos, t, index).value;
    Be32BytesRoundTrip(data[pos .. pos + 4]);
    assert out[pos .. pos + 4] == data[pos .. pos + 4];
    assert forall j :: pos <= j < pos + 4 ==> out[j] == out[pos .. pos + 4][j - pos];
    assert out == data;
  }
}
