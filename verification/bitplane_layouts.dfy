/**
 * The three layout presets the Word-, Line-interleaved and Contiguous reader
 * and writer subclasses pass to the engine, their closed-form addresses, and
 * the reader/writer round trip for each.
 */
module BitplaneLayouts {
  import opened Bits
  import opened Bitplane
  import opened BitplaneLaws

  /** Atari ST: 16-pixel words, the planes of a word stored as adjacent words. */
  function WordInterleaved(planes: nat): Layout
  {
    Layout(2, planes * 2, 2, planes * 4, planes, 2)
  }

  /** Amiga ILBM: each scanline stores its planes one after the other. */
  function LineInterleaved(planes: nat, width: nat): Layout
  {
    var bytesPerLine := width / 8;
    Layout(bytesPerLine, 0, 1, bytesPerLine * planes, planes, bytesPerLine)
  }

  /** Amiga ACBM: each plane is one contiguous bitmap. */
  function Contiguous(planes: nat, width: nat, height: nat): Layout
  {
    var bytesPerPlane := (width / 8) * height;
    Layout(bytesPerPlane, 0, 1, 0, planes, bytesPerPlane)
  }

  // ---------------------------------------------------------------------------
  // Arithmetic steps

  lemma MulMono(d: nat, x: nat, y: nat)
    requires x <= y
    ensures x * d <= y * d
    decreases y - x
  {
    if x < y {
      MulMono(d, x, y - 1);
      assert y * d == (y - 1) * d + d;
    }
  }

  lemma DivBound(a: nat, d: nat, h: nat)
    requires d > 0 && a < d * h
    ensures a / d < h
  {
  }

  /** How a pixel number splits into 16-pixel words, halves and bits. */
  lemma SixteenSplit(n: nat)
    ensures (n / 8) % 2 == (n % 16) / 8
    ensures (n / 8 / 2) % 2 == (n / 16) % 2
    ensures n / 8 / 2 / 2 == n / 16 / 2
    ensures n / 16 == 2 * (n / 16 / 2) + (n / 16) % 2
    ensures n % 16 == 8 * ((n % 16) / 8) + n % 8
  {
    var q, r := n / 16, n % 16;
    assert n == 8 * (2 * q + r / 8) + r % 8;
    DivModUnique(n, 8, 2 * q + r / 8, r % 8);
    DivModUnique(n / 8, 2, q, r / 8);
  }

  // ---------------------------------------------------------------------------
  // Word-interleaved

  /** The address of pixel n, plane k under any walkable layout, as arithmetic on n. */
  lemma AddressClosedForm(l: Layout, n: nat, k: nat)
    requires Walkable(l)
    ensures var bytes := n / 8;
            var blocks := bytes / l.bytesPerBlock;
            Address(l, n, k) == bytes % l.bytesPerBlock + (blocks % l.blocksPerLine) * l.blockStep
                                + (blocks / l.blocksPerLine) * l.lineStep + k * l.planeStep
    ensures CursorAfter(l, n).bit == n % 8
  {
    CursorAfterClosedForm(l, n);
  }

  lemma WordArith(n: nat, planes: nat, k: nat)
    ensures (n / 8) % 2 + ((n / 8 / 2) % 2) * (planes * 2) + (n / 8 / 2 / 2) * (planes * 4) + k * 2
            == (n / 16) * (planes * 2) + (n % 16) / 8 + k * 2
  {
    SixteenSplit(n);
    var a, b, d := (n / 16) % 2, n / 16 / 2, planes * 2;
    assert a * d + b * (planes * 4) == (a + 2 * b) * d;
  }

  /**
   * Pixel n, plane k lives at byte (n div 16)*2*planes + (n mod 16) div 8 + 2k,
   * bit 7 - n mod 8, whatever the image width.
   */
  lemma WordAddress(planes: nat, n: nat, k: nat)
    ensures Address(WordInterleaved(planes), n, k) == (n / 16) * (planes * 2) + (n % 16) / 8 + k * 2
    ensures CursorAfter(WordInterleaved(planes), n).bit == n % 8
  {
    AddressClosedForm(WordInterleaved(planes), n, k);
    WordArith(n, planes, k);
  }

  lemma WordSlotsDisjoint(planes: nat, count: nat)
    ensures SlotsDisjoint(WordInterleaved(planes), count)
  {
    var l := WordInterleaved(planes);
    forall n1, k1, n2, k2 |
      0 <= n1 < count && 0 <= n2 < count && 0 <= k1 < planes && 0 <= k2 < planes
      && Address(l, n1, k1) == Address(l, n2, k2) && CursorAfter(l, n1).bit == CursorAfter(l, n2).bit
      ensures n1 == n2 && k1 == k2
    {
      WordAddress(planes, n1, k1);
      WordAddress(planes, n2, k2);
      SixteenSplit(n1);
      SixteenSplit(n2);
      var h1, h2 := (n1 % 16) / 8, (n2 % 16) / 8;
      var d := planes * 2;
      MixedRadix(n1 / 16, h1 + k1 * 2, n2 / 16, h2 + k2 * 2, d);
      MixedRadix(k1, h1, k2, h2, 2);
    }
  }

  lemma WordSlotsWithin(planes: nat, count: nat, size: nat)
    requires count % 16 == 0 && (count / 16) * (planes * 2) <= size
    ensures SlotsWithin(WordInterleaved(planes), count, size)
  {
    forall n, k | 0 <= n < count && 0 <= k < planes
      ensures Address(WordInterleaved(planes), n, k) < size
    {
      WordWithin(planes, count, size, n, k);
    }
  }

  /** One slot of `WordSlotsWithin`. */
  lemma WordWithin(planes: nat, count: nat, size: nat, n: nat, k: nat)
    requires count % 16 == 0 && (count / 16) * (planes * 2) <= size && n < count && k < planes
    ensures Address(WordInterleaved(planes), n, k) < size
  {
    WordAddress(planes, n, k);
    WordArithWithin(planes, count, n, k);
  }

  lemma WordArithWithin(planes: nat, count: nat, n: nat, k: nat)
    requires count % 16 == 0 && n < count && k < planes
    ensures (n / 16) * (planes * 2) + (n % 16) / 8 + k * 2 < (count / 16) * (planes * 2)
  {
    var d := planes * 2;
    var w := n / 16;
    assert w + 1 <= count / 16;
    MulMono(d, w + 1, count / 16);
    assert (w + 1) * d == w * d + d;
  }

  /**
   * The word-interleaved writer and reader are inverse on a zeroed buffer that
   * holds every 16-pixel group's 2*planes bytes.
   */
  lemma WordRoundTrip(buf: seq<byte>, planes: nat, colors: seq<nat>, n: nat)
    requires Zeroed(buf) && |colors| % 16 == 0 && (|colors| / 16) * (planes * 2) <= |buf|
    requires n < |colors|
    ensures NthPixel(WriteAll(buf, WordInterleaved(planes), colors), WordInterleaved(planes), n)
            == colors[n] % Pow2(planes)
  {
    WordSlotsDisjoint(planes, |colors|);
    WordSlotsWithin(planes, |colors|, |buf|);
    RoundTrip(buf, WordInterleaved(planes), colors, n);
  }

  // ---------------------------------------------------------------------------
  // Line-interleaved

  /**
   * Pixel (y, x), plane k lives at byte y*bpl*planes + x div 8 + k*bpl, bit
   * 7 - x mod 8, where bpl = width div 8.
   */
  lemma LineAddress(planes: nat, width: nat, y: nat, x: nat, k: nat)
    requires width % 8 == 0 && x < width
    ensures var bpl := width / 8;
            && Address(LineInterleaved(planes, width), y * width + x, k) == y * (bpl * planes) + x / 8 + k * bpl
            && CursorAfter(LineInterleaved(planes, width), y * width + x).bit == x % 8
  {
    var l := LineInterleaved(planes, width);
    var bpl := width / 8;
    var n := y * width + x;
    assert width == 8 * bpl;
    assert y * width == 8 * (y * bpl);
    assert n == 8 * (y * bpl + x / 8) + x % 8;
    DivModUnique(n, 8, y * bpl + x / 8, x % 8);
    assert x / 8 < bpl;
    DivModUnique(y * bpl + x / 8, bpl, y, x / 8);
    CursorAfterClosedForm(l, n);
  }

  /** Scanline y occupies exactly the bpl*planes bytes from y*bpl*planes on. */
  lemma LineScanline(planes: nat, width: nat, y: nat, x: nat, k: nat)
    requires width % 8 == 0 && x < width && k < planes
    ensures var bpl := width / 8;
            var a := Address(LineInterleaved(planes, width), y * width + x, k);
            y * (bpl * planes) <= a < (y + 1) * (bpl * planes)
  {
    LineAddress(planes, width, y, x, k);
    LineArithScanline(width / 8, planes, y, x, k);
  }

  lemma LineArithScanline(bpl: nat, planes: nat, y: nat, x: nat, k: nat)
    requires x < 8 * bpl && k < planes
    ensures y * (bpl * planes) <= y * (bpl * planes) + x / 8 + k * bpl < (y + 1) * (bpl * planes)
  {
    assert x / 8 < bpl;
    MulMono(bpl, k + 1, planes);
    assert (k + 1) * bpl == k * bpl + bpl;
    assert planes * bpl == bpl * planes;
    assert (y + 1) * (bpl * planes) == y * (bpl * planes) + bpl * planes;
  }

  /** Pixel n of a line-interleaved image, as scanline y and column x. */
  lemma LineCoordinates(planes: nat, width: nat, n: nat, k: nat) returns (y: nat, x: nat)
    requires width % 8 == 0 && width >= 8
    ensures n == y * width + x && x < width && x < 8 * (width / 8)
    ensures Address(LineInterleaved(planes, width), n, k) == y * ((width / 8) * planes) + x / 8 + k * (width / 8)
    ensures CursorAfter(LineInterleaved(planes, width), n).bit == x % 8
  {
    y, x := n / width, n % width;
    assert n == y * width + x;
    LineAddress(planes, width, y, x, k);
  }

  lemma LineArithDisjoint(bpl: nat, planes: nat, y1: nat, x1: nat, k1: nat, y2: nat, x2: nat, k2: nat)
    requires x1 < 8 * bpl && x2 < 8 * bpl && k1 < planes && k2 < planes
    requires y1 * (bpl * planes) + x1 / 8 + k1 * bpl == y2 * (bpl * planes) + x2 / 8 + k2 * bpl
    requires x1 % 8 == x2 % 8
    ensures y1 == y2 && x1 == x2 && k1 == k2
  {
    LineDigitBelow(bpl, planes, x1, k1);
    LineDigitBelow(bpl, planes, x2, k2);
    DigitsUnique(y1, x1 / 8 + k1 * bpl, y2, x2 / 8 + k2 * bpl, bpl * planes);
    DigitsUnique(k1, x1 / 8, k2, x2 / 8, bpl);
  }

  /** Within a line, byte `x / 8` of plane `k` lies before the next line starts. */
  lemma LineDigitBelow(bpl: nat, planes: nat, x: nat, k: nat)
    requires x < 8 * bpl && k < planes
    ensures 0 <= x / 8 < bpl && 0 <= k * bpl && 0 <= x / 8 + k * bpl < bpl * planes
  {
    MulMono(bpl, k + 1, planes);
    assert (k + 1) * bpl == k * bpl + bpl;
  }

  lemma LineArithWithin(bpl: nat, planes: nat, height: nat, y: nat, x: nat, k: nat)
    requires x < 8 * bpl && k < planes && y < height
    ensures y * (bpl * planes) + x / 8 + k * bpl < height * (bpl * planes)
  {
    LineDigitBelow(bpl, planes, x, k);
    MulMono(bpl * planes, y + 1, height);
    assert (y + 1) * (bpl * planes) == y * (bpl * planes) + bpl * planes;
  }

  lemma LineSlotsDisjoint(planes: nat, width: nat, count: nat)
    requires width % 8 == 0 && width >= 8
    ensures SlotsDisjoint(LineInterleaved(planes, width), count)
  {
    var l := LineInterleaved(planes, width);
    forall n1, k1, n2, k2 |
      0 <= n1 < count && 0 <= n2 < count && 0 <= k1 < planes && 0 <= k2 < planes
      && Address(l, n1, k1) == Address(l, n2, k2) && CursorAfter(l, n1).bit == CursorAfter(l, n2).bit
      ensures n1 == n2 && k1 == k2
    {
      LinePair(planes, width, n1, k1, n2, k2);
    }
  }

  lemma LinePair(planes: nat, width: nat, n1: nat, k1: nat, n2: nat, k2: nat)
    requires width % 8 == 0 && width >= 8 && k1 < planes && k2 < planes
    requires Address(LineInterleaved(planes, width), n1, k1) == Address(LineInterleaved(planes, width), n2, k2)
    requires CursorAfter(LineInterleaved(planes, width), n1).bit == CursorAfter(LineInterleaved(planes, width), n2).bit
    ensures n1 == n2 && k1 == k2
  {
    var y1, x1 := LineCoordinates(planes, width, n1, k1);
    var y2, x2 := LineCoordinates(planes, width, n2, k2);
    LineArithDisjoint(width / 8, planes, y1, x1, k1, y2, x2, k2);
  }

  lemma LineRow(width: nat, height: nat, n: nat, y: nat, x: nat)
    requires n == y * width + x && n < width * height
    ensures y < height
  {
    if y >= height {
      MulMono(width, height, y);
    }
  }

  lemma LineSlotsWithin(planes: nat, width: nat, height: nat, size: nat)
    requires width % 8 == 0 && width >= 8
    requires height * ((width / 8) * planes) <= size
    ensures SlotsWithin(LineInterleaved(planes, width), width * height, size)
  {
    var l := LineInterleaved(planes, width);
    forall n, k | 0 <= n < width * height && 0 <= k < planes
      ensures Address(l, n, k) < size
    {
      var y, x := LineCoordinates(planes, width, n, k);
      LineRow(width, height, n, y, x);
      LineArithWithin(width / 8, planes, height, y, x, k);
    }
  }

  /** The line-interleaved writer and reader are inverse over a whole image of width*height pixels. */
  lemma LineRoundTrip(buf: seq<byte>, planes: nat, width: nat, height: nat, colors: seq<nat>, n: nat)
    requires Zeroed(buf) && width % 8 == 0 && width >= 8
    requires |colors| == width * height && height * ((width / 8) * planes) <= |buf|
    requires n < |colors|
    ensures NthPixel(WriteAll(buf, LineInterleaved(planes, width), colors), LineInterleaved(planes, width), n)
            == colors[n] % Pow2(planes)
  {
    LineSlotsDisjoint(planes, width, |colors|);
    LineSlotsWithin(planes, width, height, |buf|);
    RoundTrip(buf, LineInterleaved(planes, width), colors, n);
  }

  // ---------------------------------------------------------------------------
  // Contiguous

  /**
   * Within the image, pixel n, plane k lives at byte n div 8 + k*bytesPerPlane,
   * bit 7 - n mod 8, where bytesPerPlane = (width div 8)*height; the planes
   * together occupy the first planes*bytesPerPlane bytes.
   */
  lemma ContiguousAddress(planes: nat, width: nat, height: nat, n: nat, k: nat)
    requires width % 8 == 0 && n < width * height
    ensures var bytesPerPlane := (width / 8) * height;
            && Address(Contiguous(planes, width, height), n, k) == n / 8 + k * bytesPerPlane
            && CursorAfter(Contiguous(planes, width, height), n).bit == n % 8
            && (k < planes ==> Address(Contiguous(planes, width, height), n, k) < planes * bytesPerPlane)
  {
    var l := Contiguous(planes, width, height);
    var bpp := (width / 8) * height;
    assert width == 8 * (width / 8);
    assert width * height == 8 * bpp;
    DivBound(n, 8, bpp);
    DivModUnique(n / 8, bpp, 0, n / 8);
    CursorAfterClosedForm(l, n);
    if k < planes {
      MulMono(bpp, k + 1, planes);
      assert (k + 1) * bpp == k * bpp + bpp;
    }
  }

  lemma ContiguousSlotsDisjoint(planes: nat, width: nat, height: nat, count: nat)
    requires width % 8 == 0 && count <= width * height
    ensures SlotsDisjoint(Contiguous(planes, width, height), count)
  {
    var l := Contiguous(planes, width, height);
    forall n1, k1, n2, k2 |
      0 <= n1 < count && 0 <= n2 < count && 0 <= k1 < planes && 0 <= k2 < planes
      && Address(l, n1, k1) == Address(l, n2, k2) && CursorAfter(l, n1).bit == CursorAfter(l, n2).bit
      ensures n1 == n2 && k1 == k2
    {
      ContiguousPair(planes, width, height, n1, k1, n2, k2);
    }
  }

  lemma ContiguousPair(planes: nat, width: nat, height: nat, n1: nat, k1: nat, n2: nat, k2: nat)
    requires width % 8 == 0 && n1 < width * height && n2 < width * height && k1 < planes && k2 < planes
    requires Address(Contiguous(planes, width, height), n1, k1) == Address(Contiguous(planes, width, height), n2, k2)
    requires CursorAfter(Contiguous(planes, width, height), n1).bit == CursorAfter(Contiguous(planes, width, height), n2).bit
    ensures n1 == n2 && k1 == k2
  {
    ContiguousAddress(planes, width, height, n1, k1);
    ContiguousAddress(planes, width, height, n2, k2);
    ContiguousSize(width, height);
    ContiguousArithDisjoint((width / 8) * height, n1, k1, n2, k2);
  }

  /** An image of whole bytes per row holds eight pixels per byte of a plane. */
  lemma ContiguousSize(width: nat, height: nat)
    requires width % 8 == 0
    ensures width * height == 8 * ((width / 8) * height)
  {
    assert width == 8 * (width / 8);
  }

  lemma ContiguousArithDisjoint(bpp: nat, n1: nat, k1: nat, n2: nat, k2: nat)
    requires n1 < 8 * bpp && n2 < 8 * bpp
    requires n1 / 8 + k1 * bpp == n2 / 8 + k2 * bpp && n1 % 8 == n2 % 8
    ensures n1 == n2 && k1 == k2
  {
    DivBound(n1, 8, bpp);
    DivBound(n2, 8, bpp);
    MixedRadix(k1, n1 / 8, k2, n2 / 8, bpp);
    assert n1 == 8 * (n1 / 8) + n1 % 8;
    assert n2 == 8 * (n2 / 8) + n2 % 8;
  }

  lemma ContiguousSlotsWithin(planes: nat, width: nat, height: nat, count: nat, size: nat)
    requires width % 8 == 0 && count <= width * height
    requires planes * ((width / 8) * height) <= size
    ensures SlotsWithin(Contiguous(planes, width, height), count, size)
  {
    forall n, k | 0 <= n < count && 0 <= k < planes
      ensures Address(Contiguous(planes, width, height), n, k) < size
    {
      ContiguousAddress(planes, width, height, n, k);
    }
  }

  /** The contiguous writer and reader are inverse for up to width*height pixels. */
  lemma ContiguousRoundTrip(buf: seq<byte>, planes: nat, width: nat, height: nat, colors: seq<nat>, n: nat)
    requires Zeroed(buf) && width % 8 == 0
    requires |colors| <= width * height && planes * ((width / 8) * height) <= |buf|
    requires n < |colors|
    ensures NthPixel(WriteAll(buf, Contiguous(planes, width, height), colors), Contiguous(planes, width, height), n)
            == colors[n] % Pow2(planes)
  {
    ContiguousSlotsDisjoint(planes, width, height, |colors|);
    ContiguousSlotsWithin(planes, width, height, |colors|, |buf|);
    RoundTrip(buf, Contiguous(planes, width, height), colors, n);
  }
}
