/**
 * IndexedPalette: a fixed-precision RGBA colour table whose entries may be
 * missing (holes of a sparse JavaScript array), with clamping on write,
 * resampling to another precision, packing to 32-bit values and back, and
 * construction from the unique colours of an RGBA pixel buffer.
 */
module Palette {
  import opened Results
  import opened Bits
  import opened JsNumbers

  /** One palette entry; channels are JavaScript numbers, so they may carry a fraction. */
  datatype Color = Color(r: real, g: real, b: real, a: real)

  datatype IndexedPalette = IndexedPalette(bitsPerChannel: nat, colors: seq<Option<Color>>)

  /** `(1 << bits) - 1`, with the shift's 32-bit wrap-around (see `ShiftOneIsShiftLeft`). */
  function MaxChannel(bits: nat): int
  {
    ShiftOne(bits) - 1
  }

  lemma MaxChannelValue(bits: nat)
    requires bits < 31
    ensures MaxChannel(bits) == Pow2(bits) - 1
  {
    var p := Pow2(bits);
    Pow2Below31(bits);
    assert bits % 32 == bits;
    assert Signed32(p) == p;
    assert ShiftOne(bits) == p;
  }

  /** `Math.max(0, Math.min(v, max))` */
  function Clamp(v: real, max: int): (c: real)
    ensures max >= 0 ==> 0.0 <= c <= max as real
    ensures 0.0 <= v <= max as real ==> c == v
  {
    var m := if v < max as real then v else max as real;
    if m < 0.0 then 0.0 else m
  }

  function ClampColor(c: Color, max: int): Color
  {
    Color(Clamp(c.r, max), Clamp(c.g, max), Clamp(c.b, max), Clamp(c.a, max))
  }

  predicate ColorWithin(c: Color, max: int)
  {
    0.0 <= c.r <= max as real && 0.0 <= c.g <= max as real
    && 0.0 <= c.b <= max as real && 0.0 <= c.a <= max as real
  }

  /** Every present entry lies within the palette's channel range. */
  predicate WellFormed(p: IndexedPalette)
  {
    forall i :: 0 <= i < |p.colors| && p.colors[i].Some? ==> ColorWithin(p.colors[i].value, MaxChannel(p.bitsPerChannel))
  }

  /** `new IndexedPalette(count, { bitsPerChannel })`: `count` holes. */
  function NewPalette(count: nat, bits: nat): (p: IndexedPalette)
    ensures |p.colors| == count && p.bitsPerChannel == bits
    ensures forall i :: 0 <= i < count ==> p.colors[i] == None
    ensures WellFormed(p)
  {
    IndexedPalette(bits, seq(count, _ => None))
  }

  /** `getColor(index)`: undefined for a hole and past the end. */
  function GetColor(p: IndexedPalette, index: nat): Option<Color>
  {
    if index < |p.colors| then p.colors[index] else None
  }

  /**
   * `setColor(index, r, g, b, a)`: stores the clamped channels; an index at or
   * past the end grows the array, leaving holes in between.
   */
  function SetColor(p: IndexedPalette, index: nat, r: real, g: real, b: real, a: real): (q: IndexedPalette)
    ensures q.bitsPerChannel == p.bitsPerChannel
    ensures |q.colors| == if index < |p.colors| then |p.colors| else index + 1
    ensures MaxChannel(p.bitsPerChannel) >= 0 && WellFormed(p) ==> WellFormed(q)
  {
    var c := ClampColor(Color(r, g, b, a), MaxChannel(p.bitsPerChannel));
    var n := if index < |p.colors| then |p.colors| else index + 1;
    IndexedPalette(p.bitsPerChannel, seq(n, i requires 0 <= i < n => if i == index then Some(c) else if i < |p.colors| then p.colors[i] else None))
  }

  /** The alpha channel defaults to the maximum when `setColor` is called with three channels. */
  function SetRgb(p: IndexedPalette, index: nat, r: real, g: real, b: real): IndexedPalette
  {
    SetColor(p, index, r, g, b, MaxChannel(p.bitsPerChannel) as real)
  }

  /** Reading back a set entry gives the clamped colour; every other entry is unchanged. */
  lemma GetSetColor(p: IndexedPalette, index: nat, r: real, g: real, b: real, a: real, j: nat)
    ensures var max := MaxChannel(p.bitsPerChannel);
            GetColor(SetColor(p, index, r, g, b, a), j)
            == if j == index then Some(Color(Clamp(r, max), Clamp(g, max), Clamp(b, max), Clamp(a, max)))
               else GetColor(p, j)
  {
  }

  /** Setting a colour whose channels are already in range stores it unchanged. */
  lemma SetColorInRange(p: IndexedPalette, index: nat, c: Color)
    requires ColorWithin(c, MaxChannel(p.bitsPerChannel))
    ensures GetColor(SetColor(p, index, c.r, c.g, c.b, c.a), index) == Some(c)
  {
  }

  /** One channel rescaled from the range `[0, from]` to `[0, to]`: `value / from * to`. */
  function Scale(x: real, from: int, to: int): real
    requires from != 0
  {
    x / from as real * to as real
  }

  function ScaleColor(c: Color, from: int, to: int): Color
    requires from != 0
  {
    Color(Scale(c.r, from, to), Scale(c.g, from, to), Scale(c.b, from, to), Scale(c.a, from, to))
  }

  /**
   * `resample(bits)`: a palette of the same length whose present entries are
   * rescaled from this palette's range to the new one and clamped; holes stay
   * holes. A 0-bit palette would divide by zero, so it is excluded.
   */
  function Resample(p: IndexedPalette, bits: nat): (q: IndexedPalette)
    requires MaxChannel(p.bitsPerChannel) != 0
    ensures q.bitsPerChannel == bits && |q.colors| == |p.colors|
    ensures forall i :: 0 <= i < |p.colors| ==> (q.colors[i].Some? <==> p.colors[i].Some?)
    ensures MaxChannel(bits) >= 0 ==> WellFormed(q)
  {
    var from, to := MaxChannel(p.bitsPerChannel), MaxChannel(bits);
    IndexedPalette(bits, seq(|p.colors|, i requires 0 <= i < |p.colors| => ResampleEntry(p.colors[i], from, to)))
  }

  /** The `setColor` call `resample` makes for one entry; `forEach` skips the holes. */
  function ResampleEntry(e: Option<Color>, from: int, to: int): (r: Option<Color>)
    requires from != 0
    ensures r.Some? <==> e.Some?
    ensures to >= 0 && r.Some? ==> ColorWithin(r.value, to)
  {
    match e
    case None => None
    case Some(c) => Some(ClampColor(ScaleColor(c, from, to), to))
  }

  lemma ScaleInRange(x: real, from: int, to: int)
    requires from > 0 && to >= 0 && 0.0 <= x <= from as real
    ensures 0.0 <= Scale(x, from, to) <= to as real
  {
    var f := x / from as real;
    assert f * from as real == x;
    assert 0.0 <= f <= 1.0;
    assert to as real - f * to as real == (1.0 - f) * to as real;
    assert 0.0 <= (1.0 - f) * to as real;
  }

  lemma ScaleBack(x: real, from: real, to: real)
    requires from != 0.0 && to != 0.0
    ensures x / from * to / to * from == x
  {
    var f := x / from;
    assert f * to / to == f;
    assert f * from == x;
  }

  lemma EntryScales(c: Color, from: int, to: int)
    requires from > 0 && to >= 0 && ColorWithin(c, from)
    ensures ResampleEntry(Some(c), from, to) == Some(ScaleColor(c, from, to))
  {
    ScaledWithin(c, from, to);
    ClampWithin(ScaleColor(c, from, to), to);
  }

  /** A colour within the old range scales to one within the new range. */
  lemma ScaledWithin(c: Color, from: int, to: int)
    requires from > 0 && to >= 0 && ColorWithin(c, from)
    ensures ColorWithin(ScaleColor(c, from, to), to)
  {
    ScaleInRange(c.r, from, to);
    ScaleInRange(c.g, from, to);
    ScaleInRange(c.b, from, to);
    ScaleInRange(c.a, from, to);
  }

  /** Clamping a colour already in range changes nothing. */
  lemma ClampWithin(c: Color, max: int)
    requires ColorWithin(c, max)
    ensures ClampColor(c, max) == c
  {
  }

  /** On a well-formed palette, resampling scales each channel exactly; no clamp applies. */
  lemma ResampleScales(p: IndexedPalette, bits: nat, i: nat)
    requires WellFormed(p) && MaxChannel(p.bitsPerChannel) > 0 && MaxChannel(bits) >= 0
    requires i < |p.colors| && p.colors[i].Some?
    ensures Resample(p, bits).colors[i]
            == Some(ScaleColor(p.colors[i].value, MaxChannel(p.bitsPerChannel), MaxChannel(bits)))
  {
    EntryScales(p.colors[i].value, MaxChannel(p.bitsPerChannel), MaxChannel(bits));
  }

  lemma ChannelBack(x: real, from: int, to: int)
    requires from != 0 && to != 0
    ensures Scale(Scale(x, from, to), to, from) == x
  {
    ScaleBack(x, from as real, to as real);
  }

  lemma ScaleColorBack(c: Color, from: int, to: int)
    requires from != 0 && to != 0
    ensures ScaleColor(ScaleColor(c, from, to), to, from) == c
  {
    ChannelBack(c.r, from, to);
    ChannelBack(c.g, from, to);
    ChannelBack(c.b, from, to);
    ChannelBack(c.a, from, to);
  }

  /** Resampling to another precision and back gives the original palette. */
  lemma ResampleRoundTrip(p: IndexedPalette, bits: nat)
    requires WellFormed(p) && MaxChannel(p.bitsPerChannel) > 0 && MaxChannel(bits) > 0
    ensures Resample(Resample(p, bits), p.bitsPerChannel) == p
  {
    var q := Resample(p, bits);
    var back := Resample(q, p.bitsPerChannel);
    var f, t := MaxChannel(p.bitsPerChannel), MaxChannel(bits);
    forall i | 0 <= i < |p.colors|
      ensures back.colors[i] == p.colors[i]
    {
      if p.colors[i].Some? {
        var c := p.colors[i].value;
        ResampleScales(p, bits, i);
        ResampleScales(q, p.bitsPerChannel, i);
        assert back.colors[i] == Some(ScaleColor(ScaleColor(c, f, t), t, f));
        ScaleColorBack(c, f, t);
      }
    }
  }

  /**
   * One entry of `toValueArray(bits, alpha)`: the channels shifted into place
   * with 32-bit shifts, summed, and taken as an unsigned 32-bit value.
   */
  function Pack(c: Color, bits: nat, alpha: bool): (v: nat)
    ensures v < Two32
  {
    if alpha then
      ToUint32((ShiftLeft(c.r, bits * 3) + ShiftLeft(c.g, bits * 2) + ShiftLeft(c.b, bits)) as real + c.a)
    else
      ToUint32((ShiftLeft(c.r, bits * 2) + ShiftLeft(c.g, bits)) as real + c.b)
  }

  /** `toValueArray(bits, alpha)`: `map` keeps the holes. */
  function ToValueArray(p: IndexedPalette, bits: nat, alpha: bool): (vs: seq<Option<nat>>)
    ensures |vs| == |p.colors|
    ensures forall i :: 0 <= i < |vs| ==> (vs[i].Some? <==> p.colors[i].Some?)
  {
    seq(|p.colors|, i requires 0 <= i < |p.colors| =>
      match p.colors[i]
      case None => None
      case Some(c) => Some(Pack(c, bits, alpha)))
  }

  /** The colour `fromValueArray` reads out of one value: `v >> 24 & 0xff` and so on. */
  function Unpack(v: int): (c: Color)
    ensures ColorWithin(c, 255)
  {
    Color(ByteAtShift(v, 24) as real, ByteAtShift(v, 16) as real, ByteAtShift(v, 8) as real, ByteAtShift(v, 0) as real)
  }

  /** `fromValueArray(values)`: an 8-bit palette, one entry per value; holes of a plain array stay holes. */
  function FromValueArray(vs: seq<Option<int>>): (p: IndexedPalette)
    ensures p.bitsPerChannel == 8 && |p.colors| == |vs|
    ensures WellFormed(p)
    ensures forall i :: 0 <= i < |vs| ==> (p.colors[i].Some? <==> vs[i].Some?)
  {
    MaxChannelValue(8);
    Pow2Bytes();
    IndexedPalette(8, seq(|vs|, i requires 0 <= i < |vs| =>
      match vs[i]
      case None => None
      case Some(v) => Some(ClampColor(Unpack(v), MaxChannel(8)))))
  }

  /** A channel holding a whole number, as every 8-bit palette read from a file does. */
  predicate Whole(x: real)
  {
    x == x.Floor as real
  }

  predicate WholeColor(c: Color)
  {
    Whole(c.r) && Whole(c.g) && Whole(c.b) && Whole(c.a)
  }

  function ColorBytes(c: Color): seq<byte>
    requires ColorWithin(c, 255)
  {
    [c.r.Floor, c.g.Floor, c.b.Floor, c.a.Floor]
  }

  /** An 8-bit colour packs to the big-endian word of its four channels. */
  lemma PackBytes(c: Color)
    requires ColorWithin(c, 255) && WholeColor(c)
    ensures Pack(c, 8, true) == Be32(ColorBytes(c))
  {
    var bs := ColorBytes(c);
    ShiftLeftPack(bs[0], bs[1], bs[2], bs[3]);
  }

  /** Every value unpacks to the colour of its big-endian bytes. */
  lemma UnpackBytes(v: nat)
    requires v < Two32
    ensures WholeColor(Unpack(v)) && ColorBytes(Unpack(v)) == Be32Bytes(v)
  {
    ByteAtShiftBytes(v);
  }

  /** An 8-bit palette of whole channels survives `toValueArray()` then `fromValueArray`. */
  lemma ValueArrayRoundTrip(p: IndexedPalette)
    requires p.bitsPerChannel == 8 && WellFormed(p)
    requires forall i :: 0 <= i < |p.colors| && p.colors[i].Some? ==> WholeColor(p.colors[i].value)
    ensures FromValueArray(ToValueArray(p, 8, true)) == p
  {
    MaxChannelValue(8);
    Pow2Bytes();
    var vs := ToValueArray(p, 8, true);
    var q := FromValueArray(vs);
    forall i | 0 <= i < |p.colors|
      ensures q.colors[i] == p.colors[i]
    {
      if p.colors[i].Some? {
        ColorBack(p.colors[i].value);
      }
    }
  }

  /** One 8-bit colour of whole channels, packed and unpacked. */
  lemma ColorBack(c: Color)
    requires ColorWithin(c, 255) && WholeColor(c)
    ensures Pack(c, 8, true) < Two32 && ClampColor(Unpack(Pack(c, 8, true)), MaxChannel(8)) == c
  {
    MaxChannelValue(8);
    Pow2Bytes();
    var v := Pack(c, 8, true);
    PackBytes(c);
    Be32BytesRoundTrip(ColorBytes(c));
    UnpackBytes(v);
    assert Unpack(v) == c;
  }

  /** Unsigned 32-bit values survive `fromValueArray` then `toValueArray()`. */
  lemma ValueArrayRoundTripBack(vs: seq<Option<int>>)
    requires forall i :: 0 <= i < |vs| && vs[i].Some? ==> 0 <= vs[i].value < Two32
    ensures ToValueArray(FromValueArray(vs), 8, true) == vs
  {
    MaxChannelValue(8);
    Pow2Bytes();
    var out := ToValueArray(FromValueArray(vs), 8, true);
    forall i | 0 <= i < |vs|
      ensures out[i] == vs[i]
    {
      if vs[i].Some? {
        ValueBack(vs[i].value);
      }
    }
  }

  /** One unsigned 32-bit value, unpacked and packed. */
  lemma ValueBack(v: nat)
    requires v < Two32
    ensures Pack(ClampColor(Unpack(v), MaxChannel(8)), 8, true) == v
  {
    MaxChannelValue(8);
    Pow2Bytes();
    UnpackBytes(v);
    PackBytes(Unpack(v));
    Be32RoundTrip(v);
  }

  // ---------------------------------------------------------------------------
  // fromImageData

  predicate NoDuplicates(vs: seq<nat>)
  {
    forall i, j :: 0 <= i < j < |vs| ==> vs[i] != vs[j]
  }

  /** Where `v` first occurs in `vs`. */
  function FirstIndex(vs: seq<nat>, v: nat): (k: nat)
    requires v in vs
    ensures k < |vs| && vs[k] == v && v !in vs[..k]
  {
    if vs[0] == v then 0
    else
      var k := FirstIndex(vs[1..], v);
      assert vs[..k + 1] == [vs[0]] + vs[1..][..k];
      k + 1
  }

  /** A first occurrence is the only index holding `v` with no `v` before it. */
  lemma FirstIndexUnique(vs: seq<nat>, v: nat, k: nat)
    requires k < |vs| && vs[k] == v && v !in vs[..k]
    ensures FirstIndex(vs, v) == k
  {
  }

  /** A value seen in a prefix first occurs at the same place in the whole sequence. */
  lemma FirstIndexPrefix(vs: seq<nat>, m: nat, v: nat)
    requires m <= |vs| && v in vs[..m]
    ensures v in vs && FirstIndex(vs, v) == FirstIndex(vs[..m], v)
  {
    var k := FirstIndex(vs[..m], v);
    assert vs[..m][..k] == vs[..k];
    FirstIndexUnique(vs, v, k);
  }

  /**
   * The values of a `Set` built by inserting `vs` in order: every value once,
   * nothing else, listed in the order of their first occurrences.
   */
  function Dedup(vs: seq<nat>): (ds: seq<nat>)
    ensures NoDuplicates(ds)
    ensures forall v :: v in ds <==> v in vs
    ensures forall i, j :: 0 <= i < j < |ds| ==> FirstIndex(vs, ds[i]) < FirstIndex(vs, ds[j])
    ensures |ds| <= |vs|
  {
    if |vs| == 0 then []
    else
      var n := |vs| - 1;
      var front := Dedup(vs[..n]);
      assert forall v :: v in vs <==> v in vs[..n] || v == vs[n] by {
        assert vs == vs[..n] + [vs[n]];
      }
      forall i | 0 <= i < |front|
        ensures FirstIndex(vs, front[i]) == FirstIndex(vs[..n], front[i])
      {
        FirstIndexPrefix(vs, n, front[i]);
      }
      if vs[n] in front then front
      else
        FirstIndexUnique(vs, vs[n], n);
        front + [vs[n]]
  }

  /** The pixels of an RGBA buffer read as big-endian 32-bit words, `getUint32(c)` for c = 0, 4, 8, ... */
  function PixelWords(data: seq<byte>): (ws: seq<nat>)
    ensures |ws| == |data| / 4
    ensures forall i :: 0 <= i < |ws| ==> ws[i] < Two32
  {
    seq(|data| / 4, i requires 0 <= i < |data| / 4 => Be32(data[4 * i .. 4 * i + 4]))
  }

  /**
   * `fromImageData(imageData)`: an 8-bit palette of the distinct pixel colours
   * in first-seen order. A buffer whose length is not a multiple of 4 makes
   * the last `getUint32` read past the end, which throws.
   */
  function FromImageData(data: seq<byte>): (r: Result<IndexedPalette, JsError>)
    ensures r.Ok? <==> |data| % 4 == 0
    ensures r.Err? ==> r.error == RangeError
    ensures r.Ok? ==> r.value.bitsPerChannel == 8 && WellFormed(r.value)
    ensures r.Ok? ==> forall i :: 0 <= i < |r.value.colors| ==> r.value.colors[i].Some?
  {
    if |data| % 4 != 0 then Err(RangeError)
    else
      var words := Dedup(PixelWords(data));
      Ok(FromValueArray(seq(|words|, i requires 0 <= i < |words| => Some(words[i] as int))))
  }

  /**
   * Every pixel of the buffer has exactly one entry in the palette's value
   * table, which is what the ImageData reader's `indexOf` relies on.
   */
  lemma FromImageDataCovers(data: seq<byte>, n: nat)
    requires |data| % 4 == 0 && n < |data| / 4
    ensures var vs := ToValueArray(FromImageData(data).value, 8, true);
            && Some(PixelWords(data)[n]) in vs
            && forall i, j :: 0 <= i < j < |vs| ==> vs[i] != vs[j]
  {
    var words := Dedup(PixelWords(data));
    var ovs := seq(|words|, i requires 0 <= i < |words| => Some(words[i] as int));
    forall i | 0 <= i < |words|
      ensures words[i] < Two32
    {
      assert words[i] in PixelWords(data);
    }
    ValueArrayRoundTripBack(ovs);
    var vs := ToValueArray(FromImageData(data).value, 8, true);
    assert vs == ovs;
    assert PixelWords(data)[n] in PixelWords(data);
    var k :| 0 <= k < |words| && words[k] == PixelWords(data)[n];
    assert vs[k] == Some(PixelWords(data)[n]);
  }

  /**
   * The converse of `FromImageDataCovers`: every palette value is some
   * pixel's word, and the values come in the order the pixels first show them.
   */
  lemma FromImageDataOrder(data: seq<byte>)
    requires |data| % 4 == 0
    ensures var vs := ToValueArray(FromImageData(data).value, 8, true);
            && (forall i :: 0 <= i < |vs| ==> vs[i].Some? && vs[i].value in PixelWords(data))
            && forall i, j :: 0 <= i < j < |vs| ==>
                 FirstIndex(PixelWords(data), vs[i].value) < FirstIndex(PixelWords(data), vs[j].value)
  {
    var words := Dedup(PixelWords(data));
    var ovs := seq(|words|, i requires 0 <= i < |words| => Some(words[i] as int));
    forall i | 0 <= i < |words|
      ensures words[i] < Two32
    {
      assert words[i] in PixelWords(data);
    }
    ValueArrayRoundTripBack(ovs);
    assert ToValueArray(FromImageData(data).value, 8, true) == ovs;
  }
}
