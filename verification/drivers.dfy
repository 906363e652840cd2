/**
 * The bitplane `decode` and `encode` entry points: they validate the image
 * width, settle the number of planes, pick the reader or writer for the
 * requested layout and move width*height pixels between a planar buffer and
 * RGBA ImageData through the palette. Both wrap their work in a Promise whose
 * executor throws on bad input; a rejected promise is an `Err` here.
 */
module Drivers {
  import opened Results
  import opened Bits
  import opened JsNumbers
  import opened Palette
  import opened Bitplane
  import opened BitplaneLaws
  import opened BitplaneLayouts
  import opened PixelAdapters

  /** The `format` option: 'word', 'line', 'contiguous', or any other value. */
  datatype Format = WordFormat | LineFormat | ContiguousFormat | OtherFormat(name: string)

  /**
   * An ImageData: width, height and RGBA bytes. The ImageData constructor
   * only builds images of positive size with exactly four bytes per pixel.
   */
  datatype Image = Image(width: nat, height: nat, data: seq<byte>)

  predicate ValidImage(img: Image)
  {
    img.width > 0 && img.height > 0 && |img.data| == 4 * (img.width * img.height)
  }

  /** Options of `decode`: `planes` is any number when present. */
  datatype DecodeOptions = DecodeOptions(planes: Option<real>, format: Option<Format>)

  /** Options of `encode`: a missing or zero `planes` means "derive it from the palette". */
  datatype EncodeOptions = EncodeOptions(planes: Option<nat>, format: Option<Format>)

  const DecodeWidthMessage: string := "ImageData width must be multiple of 16"
  const EncodeWidthMessage: string := "Image width must be a multiple of 16"
  const PlanesMessage: string := "Palette length must be a power of 2"
  const FormatMessage: string := "Invalid format"

  // ---------------------------------------------------------------------------
  // Plane counts

  /**
   * The exact base-2 logarithm of a power of two, and None otherwise. The
   * source computes `Math.log(n) / Math.log(2)` in doubles, which rounds away
   * from a whole number for some large powers of two (2^29 and 2^31 among
   * them); this is the exact quotient.
   */
  function Log2(n: nat): (r: Option<nat>)
    ensures r.Some? ==> Pow2(r.value) == n
    decreases n
  {
    if n == 1 then Some(0)
    else if n >= 2 && n % 2 == 0 then
      match Log2(n / 2)
      case Some(k) => Some(k + 1)
      case None => None
    else None
  }

  /** Every power of two has its exponent as logarithm, so `Log2` fails exactly on the other lengths. */
  lemma {:induction false} Log2OfPow2(k: nat)
    ensures Log2(Pow2(k)) == Some(k)
  {
    if k > 0 {
      Log2OfPow2(k - 1);
      assert Pow2(k) / 2 == Pow2(k - 1);
    }
  }

  /**
   * The fewest planes that can index n colours: the exact ceiling of the
   * logarithm that `Math.ceil(Math.log(n) / Math.log(2))` approximates in doubles.
   */
  function CeilLog2(n: nat): (r: nat)
    ensures n <= Pow2(r)
    ensures r > 0 ==> Pow2(r - 1) < n
    decreases n
  {
    if n <= 1 then 0 else 1 + CeilLog2((n + 1) / 2)
  }

  /** On a power of two the ceiling is the exact logarithm. */
  lemma {:induction false} CeilLog2OfPow2(k: nat)
    ensures CeilLog2(Pow2(k)) == k
  {
    if k > 0 {
      var m := Pow2(k - 1);
      assert Pow2(k) == 2 * m && m >= 1;
      DivModUnique(2 * m + 1, 2, m, 1);
      assert CeilLog2(2 * m) == 1 + CeilLog2(m);
      CeilLog2OfPow2(k - 1);
    }
  }

  lemma Pow2Strict(a: nat, b: nat)
    requires a < b
    ensures Pow2(a) < Pow2(b)
  {
    PowMono(a, b - 1);
  }

  /**
   * `planes |= 0`: the 32-bit signed value of a whole number. A negative count
   * makes every plane loop of the reader empty, which decodes index 0 for
   * every pixel, exactly as zero planes do.
   */
  function PlanesOf(x: int): (p: nat)
    ensures 0 <= x < 0x8000_0000 ==> p == x
  {
    var v := Signed32(Wrap32(x));
    assert 0 <= x < 0x8000_0000 ==> Wrap32(x) == x by {
      if 0 <= x < 0x8000_0000 {
        DivModUnique(x, Two32, 0, x);
      }
    }
    if v < 0 then 0 else v
  }

  /** The number of planes `decode` reads: the option when given, else log2 of the palette length. */
  function DecodePlanes(planes: Option<real>, paletteLength: nat): (r: Result<nat, JsError>)
    ensures r.Err? ==> r.error == Thrown(PlanesMessage)
    ensures planes.None? ==> (r.Ok? <==> Log2(paletteLength).Some?)
    ensures planes.None? && r.Ok? && paletteLength < Two32 ==> Pow2(r.value) == paletteLength
    ensures planes.Some? ==> (r.Ok? <==> planes.value == planes.value.Floor as real)
  {
    match planes
    case Some(x) =>
      if x != x.Floor as real then Err(Thrown(PlanesMessage)) else Ok(PlanesOf(x.Floor))
    case None =>
      match Log2(paletteLength)
      case None => Err(Thrown(PlanesMessage))
      case Some(k) =>
        assert paletteLength < Two32 ==> k < 32 by {
          if k >= 32 {
            Pow2Bytes();
            PowMono(32, k);
          }
        }
        Ok(PlanesOf(k))
  }

  /**
   * The number of planes `encode` writes: the option when given and non-zero,
   * else the ceiling of log2 of the palette length. An empty palette gives
   * -Infinity, whose plane loops never run, as with zero planes.
   */
  function EncodePlanes(planes: Option<nat>, paletteLength: nat): (p: nat)
    ensures planes.Some? && planes.value != 0 ==> p == planes.value
    ensures !(planes.Some? && planes.value != 0) && paletteLength > 0 ==>
              paletteLength <= Pow2(p) && (p > 0 ==> Pow2(p - 1) < paletteLength)
  {
    if planes.Some? && planes.value != 0 then planes.value
    else if paletteLength == 0 then 0
    else CeilLog2(paletteLength)
  }

  /** The reader or writer subclass for a format; `format` defaults to 'word'. */
  function LayoutFor(format: Option<Format>, planes: nat, width: nat, height: nat): (r: Result<Layout, JsError>)
    ensures r.Err? <==> format.Some? && format.value.OtherFormat?
    ensures r.Err? ==> r.error == Thrown(FormatMessage)
    ensures r.Ok? ==> r.value.planes == planes
  {
    var f := if format.Some? then format.value else WordFormat;
    match f
    case ContiguousFormat => Ok(Contiguous(planes, width, height))
    case LineFormat => Ok(LineInterleaved(planes, width))
    case WordFormat => Ok(WordInterleaved(planes))
    case OtherFormat(_) => Err(Thrown(FormatMessage))
  }

  // ---------------------------------------------------------------------------
  // decode

  /** The RGBA bytes of the first `n` pixels after `decode`'s loop: each pixel's index looked up in the table. */
  function DecodedPixels(buf: seq<byte>, l: Layout, t: seq<Option<nat>>, n: nat): (out: seq<byte>)
    requires Words(t)
    ensures |out| == 4 * n
  {
    if n == 0 then [] else DecodedPixels(buf, l, t, n - 1) + Be32Bytes(Entry(t, NthPixel(buf, l, n - 1)))
  }

  /** Pixel i of the decoded bytes is the colour of the i-th index the reader returns. */
  lemma {:induction false} DecodedPixel(buf: seq<byte>, l: Layout, t: seq<Option<nat>>, n: nat, i: nat)
    requires Words(t) && i < n
    ensures DecodedPixels(buf, l, t, n)[4 * i .. 4 * i + 4] == Be32Bytes(Entry(t, NthPixel(buf, l, i)))
  {
    var d := DecodedPixels(buf, l, t, n - 1);
    var b := Be32Bytes(Entry(t, NthPixel(buf, l, n - 1)));
    assert DecodedPixels(buf, l, t, n) == d + b;
    if i < n - 1 {
      DecodedPixel(buf, l, t, n - 1, i);
      assert (d + b)[4 * i .. 4 * i + 4] == d[4 * i .. 4 * i + 4];
    } else {
      assert (d + b)[4 * i .. 4 * i + 4] == b;
    }
  }

  /**
   * The result of `decode(buffer, imageData, palette, options)`: the width
   * check, the plane count and the format are validated in that order, then
   * every pixel of the image is overwritten with the palette colour of the
   * index read from the buffer.
   */
  function DecodeSpec(buf: seq<byte>, img: Image, p: IndexedPalette, opts: DecodeOptions): (r: Result<Image, JsError>)
    requires ValidImage(img) && MaxChannel(p.bitsPerChannel) != 0
    ensures r.Err? <==> img.width % 16 != 0 || DecodePlanes(opts.planes, |p.colors|).Err?
                        || (opts.format.Some? && opts.format.value.OtherFormat?)
    ensures r.Ok? ==> r.value.width == img.width && r.value.height == img.height && ValidImage(r.value)
  {
    if img.width % 16 != 0 then Err(Thrown(DecodeWidthMessage))
    else
      var planes :- DecodePlanes(opts.planes, |p.colors|);
      var l :- LayoutFor(opts.format, planes, img.width, img.height);
      LookupWords(p);
      Ok(img.(data := DecodedPixels(buf, l, Lookup(p), img.width * img.height)))
  }

  /** `decode`'s pixel loop: read an index from the bitplane reader, write its colour to the image. */
  method DecodePixels(buf: seq<byte>, l: Layout, t: seq<Option<nat>>, data: seq<byte>, count: nat) returns (out: seq<byte>)
    requires Words(t) && |data| == 4 * count
    ensures out == DecodedPixels(buf, l, t, count)
  {
    var reader := NewReader(l);
    out := data;
    var n := 0;
    while n < count
      invariant n <= count
      invariant reader.layout == l && reader.cursor == CursorAfter(l, n) && Coherent(buf, reader)
      invariant out == DecodedPixels(buf, l, t, n) + data[4 * n ..]
    {
      var index;
      index, reader := Read(buf, reader);
      assert index == NthPixel(buf, l, n);
      var written := WritePixel(out, 4 * n, t, index);
      var bytes := Be32Bytes(Entry(t, index));
      assert written.value == DecodedPixels(buf, l, t, n + 1) + data[4 * (n + 1) ..] by {
        var w := written.value;
        assert w[..4 * n] == out[..4 * n] == DecodedPixels(buf, l, t, n);
        assert w[4 * n .. 4 * n + 4] == bytes;
        assert w[4 * n + 4 ..] == out[4 * n + 4 ..] == data[4 * (n + 1) ..];
        assert w == w[..4 * n] + w[4 * n .. 4 * n + 4] + w[4 * n + 4 ..];
      }
      out := written.value;
      n := n + 1;
    }
  }

  /** `decode(buffer, imageData, palette, options)`. */
  method Decode(buf: seq<byte>, img: Image, p: IndexedPalette, opts: DecodeOptions) returns (r: Result<Image, JsError>)
    requires ValidImage(img) && MaxChannel(p.bitsPerChannel) != 0
    ensures r == DecodeSpec(buf, img, p, opts)
  {
    if img.width % 16 != 0 {
      return Err(Thrown(DecodeWidthMessage));
    }
    var planes :- DecodePlanes(opts.planes, |p.colors|);
    var t := Lookup(p);
    LookupWords(p);
    var l :- LayoutFor(opts.format, planes, img.width, img.height);
    var data := DecodePixels(buf, l, t, img.data, img.width * img.height);
    r := Ok(img.(data := data));
  }

  // ---------------------------------------------------------------------------
  // encode

  /**
   * The palette indices of the first `n` pixels, as the ImageData reader
   * returns them, or RangeError when some pixel's colour is not in the table.
   */
  function PixelIndices(data: seq<byte>, t: seq<Option<nat>>, n: nat): (r: Result<seq<nat>, JsError>)
    requires 4 * n <= |data|
    ensures r.Ok? <==> forall k :: 0 <= k < n ==> Some(Be32(data[4 * k .. 4 * k + 4])) in t
    ensures r.Err? ==> r.error == RangeError
    ensures r.Ok? ==> |r.value| == n
    ensures r.Ok? ==> forall k :: 0 <= k < n ==> r.value[k] < |t| && t[r.value[k]] == Some(Be32(data[4 * k .. 4 * k + 4]))
  {
    if n == 0 then Ok([])
    else
      var prev :- PixelIndices(data, t, n - 1);
      var index := IndexOf(t, Be32(data[4 * (n - 1) .. 4 * n]));
      if index == -1 then Err(RangeError) else Ok(prev + [index])
  }

  /**
   * The result of `encode(imageData, buffer, palette, options)`: the width is
   * checked, the plane count settled and the format validated, then every
   * pixel's palette index is ORed into the buffer by the bitplane writer.
   * The buffer is not cleared first.
   */
  ghost function EncodeSpec(img: Image, buf: seq<byte>, p: IndexedPalette, opts: EncodeOptions): (r: Result<seq<byte>, JsError>)
    requires ValidImage(img) && MaxChannel(p.bitsPerChannel) != 0
    ensures r.Err? <==> img.width % 16 != 0 || (opts.format.Some? && opts.format.value.OtherFormat?)
                        || PixelIndices(img.data, Lookup(p), img.width * img.height).Err?
    ensures r.Ok? ==> |r.value| == |buf|
  {
    if img.width % 16 != 0 then Err(Thrown(EncodeWidthMessage))
    else
      var planes := EncodePlanes(opts.planes, |p.colors|);
      var l :- LayoutFor(opts.format, planes, img.width, img.height);
      var indices :- PixelIndices(img.data, Lookup(p), img.width * img.height);
      Ok(WriteAll(buf, l, indices))
  }

  /** `encode`'s pixel loop: read an index from the ImageData reader, hand it to the bitplane writer. */
  method EncodePixels(data: seq<byte>, t: seq<Option<nat>>, buf: seq<byte>, l: Layout, count: nat) returns (r: Result<seq<byte>, JsError>)
    requires |data| == 4 * count
    ensures r.Ok? <==> PixelIndices(data, t, count).Ok?
    ensures r.Err? ==> r.error == RangeError
    ensures r.Ok? ==> r.value == WriteAll(buf, l, PixelIndices(data, t, count).value)
  {
    var reader := PixelReader(t, 0);
    var writer := NewWriter(l);
    var out := buf;
    ghost var indices: seq<nat> := [];
    var n := 0;
    while n < count
      invariant n <= count
      invariant reader == PixelReader(t, 4 * n)
      invariant writer == Writer(l, CursorAfter(l, n))
      invariant PixelIndices(data, t, n) == Ok(indices)
      invariant out == WriteAll(buf, l, indices)
    {
      var res := ReadPixel(data, reader);
      if res.Err? {
        assert PixelIndices(data, t, count).Err? by {
          PixelIndicesStep(data, t, n, indices);
        }
        return Err(RangeError);
      }
      var index := res.value.0;
      assert PixelIndices(data, t, n + 1) == Ok(indices + [index]) by {
        PixelIndicesStep(data, t, n, indices);
      }
      reader := res.value.1;
      CursorBitInRange(l, n);
      WriteAllSnoc(buf, l, indices, index);
      out, writer := Write(out, writer, index);
      indices := indices + [index];
      n := n + 1;
    }
    r := Ok(out);
  }

  /** One more pixel: its index joins the list, or its absence makes the whole encode fail. */
  lemma PixelIndicesStep(data: seq<byte>, t: seq<Option<nat>>, n: nat, indices: seq<nat>)
    requires 4 * (n + 1) <= |data| && PixelIndices(data, t, n) == Ok(indices)
    ensures var res := ReadPixel(data, PixelReader(t, 4 * n));
            && (res.Err? ==> forall m :: n < m && 4 * m <= |data| ==> PixelIndices(data, t, m).Err?)
            && (res.Ok? ==> PixelIndices(data, t, n + 1) == Ok(indices + [res.value.0]))
  {
  }

  /** The writer's next call stamps the next cursor position of the walk. */
  lemma WriteAllSnoc(buf: seq<byte>, l: Layout, colors: seq<nat>, c: nat)
    ensures var cur := CursorAfter(l, |colors|);
            cur.bit < 8 ==>
            WriteAll(buf, l, colors + [c]) == Stamp(WriteAll(buf, l, colors), l, Base(l, cur), cur.bit, c, l.planes)
  {
    assert (colors + [c])[..|colors|] == colors;
  }

  /** `encode(imageData, buffer, palette, options)`. */
  method Encode(img: Image, buf: seq<byte>, p: IndexedPalette, opts: EncodeOptions) returns (r: Result<seq<byte>, JsError>)
    requires ValidImage(img) && MaxChannel(p.bitsPerChannel) != 0
    ensures r == EncodeSpec(img, buf, p, opts)
  {
    if img.width % 16 != 0 {
      return Err(Thrown(EncodeWidthMessage));
    }
    var planes := EncodePlanes(opts.planes, |p.colors|);
    var t := Lookup(p);
    var l :- LayoutFor(opts.format, planes, img.width, img.height);
    r := EncodePixels(img.data, t, buf, l, img.width * img.height);
  }

  // ---------------------------------------------------------------------------
  // decode after encode

  /** The bytes of the planar buffer each layout fills for a width*height image of `planes` planes. */
  function PlanarSize(format: Option<Format>, planes: nat, width: nat, height: nat): nat
  {
    var f := if format.Some? then format.value else WordFormat;
    match f
    case ContiguousFormat => planes * ((width / 8) * height)
    case LineFormat => height * ((width / 8) * planes)
    case _ => (width * height / 16) * (planes * 2)
  }

  /**
   * For each layout, the reader returns what the writer stored, when the
   * buffer starts zeroed and holds the whole image.
   */
  lemma LayoutRoundTrip(format: Option<Format>, planes: nat, width: nat, height: nat, buf: seq<byte>, colors: seq<nat>, n: nat)
    requires LayoutFor(format, planes, width, height).Ok?
    requires Zeroed(buf) && width % 16 == 0 && width > 0
    requires |colors| == width * height && PlanarSize(format, planes, width, height) <= |buf| && n < |colors|
    ensures var l := LayoutFor(format, planes, width, height).value;
            NthPixel(WriteAll(buf, l, colors), l, n) == colors[n] % Pow2(planes)
  {
    var f := if format.Some? then format.value else WordFormat;
    Sixteenths(width, height);
    match f
    case ContiguousFormat =>
      ContiguousRoundTrip(buf, planes, width, height, colors, n);
    case LineFormat =>
      LineRoundTrip(buf, planes, width, height, colors, n);
    case WordFormat =>
      WordRoundTrip(buf, planes, colors, n);
  }

  /** A width that is a multiple of 16 is one of 8, and so is its product with the height, of 16. */
  lemma Sixteenths(width: nat, height: nat)
    requires width % 16 == 0
    ensures width % 8 == 0
    ensures (width * height) % 16 == 0 && width * height / 16 == (width / 16) * height
  {
    var q := width / 16;
    assert width == 16 * q;
    assert width * height == 16 * (q * height);
    DivModUnique(width * height, 16, q * height, 0);
    DivModUnique(width, 8, 2 * q, 0);
  }

  /** Decoding indices that name the pixels' own colours rebuilds the pixels. */
  lemma {:induction false} DecodedAfterEncode(buf: seq<byte>, l: Layout, t: seq<Option<nat>>, data: seq<byte>, indices: seq<nat>, n: nat)
    requires Words(t) && 4 * n <= |data| && n <= |indices|
    requires forall i :: 0 <= i < n ==>
               NthPixel(buf, l, i) == indices[i] && indices[i] < |t| && t[indices[i]] == Some(Be32(data[4 * i .. 4 * i + 4]))
    ensures DecodedPixels(buf, l, t, n) == data[..4 * n]
  {
    if n > 0 {
      DecodedAfterEncode(buf, l, t, data, indices, n - 1);
      var i := n - 1;
      var word := data[4 * i .. 4 * i + 4];
      assert NthPixel(buf, l, i) == indices[i] && t[indices[i]] == Some(Be32(word));
      assert Entry(t, NthPixel(buf, l, i)) == Be32(word);
      Be32BytesRoundTrip(word);
      assert DecodedPixels(buf, l, t, n) == data[..4 * i] + word;
      assert data[..4 * n] == data[..4 * i] + word;
    }
  }

  /**
   * `decode` inverts `encode`: an image whose every colour is in a palette of
   * 2^k entries, encoded into a zeroed buffer with default options, decodes
   * (in any layout, into any image of the same size) back to the same pixels.
   */
  lemma RoundTrip(img: Image, blank: Image, buf: seq<byte>, p: IndexedPalette, format: Option<Format>)
    requires ValidImage(img) && ValidImage(blank) && blank.width == img.width && blank.height == img.height
    requires img.width % 16 == 0 && MaxChannel(p.bitsPerChannel) != 0
    requires |p.colors| < Two32 && Log2(|p.colors|).Some?
    requires !(format.Some? && format.value.OtherFormat?)
    requires forall k :: 0 <= k < img.width * img.height ==> Some(Be32(img.data[4 * k .. 4 * k + 4])) in Lookup(p)
    requires Zeroed(buf) && PlanarSize(format, Log2(|p.colors|).value, img.width, img.height) <= |buf|
    ensures EncodeSpec(img, buf, p, EncodeOptions(None, format)).Ok?
    ensures DecodeSpec(EncodeSpec(img, buf, p, EncodeOptions(None, format)).value, blank, p, DecodeOptions(None, format)) == Ok(img)
  {
    var l, indices := EncodeDefault(img, buf, p, format);
    DecodeDefault(WriteAll(buf, l, indices), blank, p, format, l);
    PixelsBack(format, Log2(|p.colors|).value, img.width, img.height, buf, Lookup(p), img.data, indices, l);
  }

  /** Indices written in layout `l` into a zeroed buffer read back as the colours they index. */
  lemma PixelsBack(format: Option<Format>, k: nat, width: nat, height: nat, buf: seq<byte>,
                   t: seq<Option<nat>>, data: seq<byte>, indices: seq<nat>, l: Layout)
    requires LayoutFor(format, k, width, height).Ok? && l == LayoutFor(format, k, width, height).value
    requires Zeroed(buf) && width % 16 == 0 && width > 0 && PlanarSize(format, k, width, height) <= |buf|
    requires Words(t) && |t| == Pow2(k) && |data| == 4 * (width * height) && |indices| == width * height
    requires forall i :: 0 <= i < width * height ==> indices[i] < |t| && t[indices[i]] == Some(Be32(data[4 * i .. 4 * i + 4]))
    ensures DecodedPixels(WriteAll(buf, l, indices), l, t, width * height) == data
  {
    var count := width * height;
    var out := WriteAll(buf, l, indices);
    forall i | 0 <= i < count
      ensures NthPixel(out, l, i) == indices[i]
    {
      LayoutRoundTrip(format, k, width, height, buf, indices, i);
      DivModUnique(indices[i], Pow2(k), 0, indices[i]);
    }
    DecodedAfterEncode(out, l, t, data, indices, count);
    assert data[..4 * count] == data;
  }

  /** With `planes` left out, `encode` on a power-of-two palette uses log2 of its length. */
  lemma EncodeDefault(img: Image, buf: seq<byte>, p: IndexedPalette, format: Option<Format>) returns (l: Layout, indices: seq<nat>)
    requires ValidImage(img) && img.width % 16 == 0 && MaxChannel(p.bitsPerChannel) != 0
    requires Log2(|p.colors|).Some? && !(format.Some? && format.value.OtherFormat?)
    requires PixelIndices(img.data, Lookup(p), img.width * img.height).Ok?
    ensures l == LayoutFor(format, Log2(|p.colors|).value, img.width, img.height).value
    ensures PixelIndices(img.data, Lookup(p), img.width * img.height) == Ok(indices)
    ensures EncodeSpec(img, buf, p, EncodeOptions(None, format)) == Ok(WriteAll(buf, l, indices))
  {
    var k := Log2(|p.colors|).value;
    CeilLog2OfPow2(k);
    assert EncodePlanes(None, |p.colors|) == k;
    l := LayoutFor(format, k, img.width, img.height).value;
    indices := PixelIndices(img.data, Lookup(p), img.width * img.height).value;
  }

  /** With `planes` left out, `decode` on a power-of-two palette uses the same layout. */
  lemma DecodeDefault(buf: seq<byte>, blank: Image, p: IndexedPalette, format: Option<Format>, l: Layout)
    requires ValidImage(blank) && blank.width % 16 == 0 && MaxChannel(p.bitsPerChannel) != 0
    requires |p.colors| < Two32 && Log2(|p.colors|).Some? && !(format.Some? && format.value.OtherFormat?)
    requires l == LayoutFor(format, Log2(|p.colors|).value, blank.width, blank.height).value
    ensures Words(Lookup(p))
    ensures DecodeSpec(buf, blank, p, DecodeOptions(None, format))
            == Ok(blank.(data := DecodedPixels(buf, l, Lookup(p), blank.width * blank.height)))
  {
    LookupWords(p);
    var k := Log2(|p.colors|).value;
    var r := DecodePlanes(None, |p.colors|).value;
    if r < k {
      Pow2Strict(r, k);
    } else if r > k {
      Pow2Strict(k, r);
    }
  }
}
