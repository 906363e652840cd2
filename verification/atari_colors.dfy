/**
 * Atari ST and STE palette words: 16-bit big-endian `0RGB` values, 3 bits per
 * channel on the ST and 4 on the STE, whose extra low bit is stored in bit 3
 * of each nibble.
 */
module AtariColors {
  import opened Results
  import opened Bits
  import opened JsNumbers
  import opened Palette

  type nibble = x: int | 0 <= x < 16

  datatype Rgb = Rgb(r: nibble, g: nibble, b: nibble)

  /** `parse4bitRgbColor(value)` for a non-negative word: the three low nibbles. */
  function Parse4bit(value: nat): (c: Rgb)
    ensures value < 0x1000 ==> value == c.r * 256 + c.g * 16 + c.b
  {
    Rgb((value / 256) % 16, (value / 16) % 16, value % 16)
  }

  /** One channel of `parseAtariSteColor`: the stored nibble rotated left by one bit. */
  function FromSte(x: nibble): nibble
  {
    2 * (x % 8) + x / 8
  }

  /** One channel of the STE branch of `writeAtariStIndexedPalette`: `(x << 3 & 8) | (x >> 1 & 7)`. */
  function ToSte(x: int): nibble
  {
    8 * (x % 2) + (x / 2) % 8
  }

  /** The STE channel encodings are a bijection on nibbles. */
  lemma SteBijection(x: nibble)
    ensures ToSte(FromSte(x)) == x && FromSte(ToSte(x)) == x
  {
    var y := FromSte(x);
    DivModUnique(y, 2, x % 8, x / 8);
    var z := ToSte(x);
    DivModUnique(x / 2, 8, 0, x / 2);
    DivModUnique(z, 8, x % 2, x / 2);
  }

  function ParseSte(value: nat): Rgb
  {
    var c := Parse4bit(value);
    Rgb(FromSte(c.r), FromSte(c.g), FromSte(c.b))
  }

  /**
   * `(buffer[c * 2] << 8) + buffer[c * 2 + 1]`: reading past the end of the
   * buffer adds `undefined`, giving NaN, which the later shifts treat as 0.
   */
  function WordAt(buf: seq<byte>, c: nat): (w: nat)
    ensures w < 0x1_0000
    ensures 2 * c + 1 < |buf| ==> w == Be16(buf[2 * c], buf[2 * c + 1])
  {
    if 2 * c + 1 < |buf| then Be16(buf[2 * c], buf[2 * c + 1]) else 0
  }

  /** The palette entry `setColor(c, r, g, b)` stores for a parsed colour; alpha defaults to the maximum. */
  function Entry(c: Rgb, bits: nat): Option<Color>
  {
    Some(ClampColor(Color(c.r as real, c.g as real, c.b as real, MaxChannel(bits) as real), MaxChannel(bits)))
  }

  /** `createAtariSteIndexedPalette(buffer, colors)` */
  function CreateSte(buf: seq<byte>, colors: nat): (p: IndexedPalette)
    ensures p.bitsPerChannel == 4 && |p.colors| == colors && WellFormed(p)
    ensures forall c :: 0 <= c < colors ==> p.colors[c].Some?
  {
    MaxChannelValue(4);
    IndexedPalette(4, seq(colors, c requires 0 <= c < colors => Entry(ParseSte(WordAt(buf, c)), 4)))
  }

  /** A word that uses bit 3 of some channel cannot be an ST colour. */
  predicate SteOnly(value: nat)
  {
    var c := Parse4bit(value);
    c.r >= 8 || c.g >= 8 || c.b >= 8
  }

  /**
   * `createAtariStIndexedPalette(buffer, colors)`: a 3-bit palette, unless
   * some word among the first `colors` sets bit 3 of a channel, in which case
   * the whole buffer is reparsed as an STE palette.
   */
  function CreateSt(buf: seq<byte>, colors: nat): (p: IndexedPalette)
    ensures |p.colors| == colors && WellFormed(p)
    ensures forall c :: 0 <= c < colors ==> p.colors[c].Some?
    ensures p.bitsPerChannel == 4 <==> exists c :: 0 <= c < colors && SteOnly(WordAt(buf, c))
    ensures p.bitsPerChannel == 3 || p.bitsPerChannel == 4
  {
    if exists c :: 0 <= c < colors && SteOnly(WordAt(buf, c)) then CreateSte(buf, colors)
    else
      MaxChannelValue(3);
      IndexedPalette(3, seq(colors, c requires 0 <= c < colors => Entry(Parse4bit(WordAt(buf, c)), 3)))
  }

  /** A Uint8Array store: the value is truncated and wrapped to a byte, and an index past the end is dropped. */
  function Store(buf: seq<byte>, i: nat, v: real): (out: seq<byte>)
    ensures |out| == |buf|
  {
    if i < |buf| then buf[i := ToUint32(v) % 256] else buf
  }

  /** The two bytes `writeAtariStIndexedPalette` stores for one colour. */
  function ColorBytes(c: Color, bits: nat): (real, real)
  {
    if bits == 3 then
      (c.r, ShiftLeft(c.g, 4) as real + c.b)
    else
      var r, g, b := ToSte(ToInt32(c.r)), ToSte(ToInt32(c.g)), ToSte(ToInt32(c.b));
      (r as real, (g * 16 + b) as real)
  }

  /** The buffer after the colours from `from` on have been stored, in order. */
  function StoreColors(buf: seq<byte>, p: IndexedPalette, from: nat): (out: seq<byte>)
    requires forall c :: 0 <= c < |p.colors| ==> p.colors[c].Some?
    ensures |out| == |buf|
    decreases |p.colors| - from
  {
    if from >= |p.colors| then buf
    else
      var (hi, lo) := ColorBytes(p.colors[from].value, p.bitsPerChannel);
      StoreColors(Store(Store(buf, 2 * from, hi), 2 * from + 1, lo), p, from + 1)
  }

  const DepthMessage: string := "Atari ST palettes must be either 3 or 4 bit per channel"

  /**
   * `writeAtariStIndexedPalette(buffer, palette)`: two bytes per colour; any
   * depth but 3 and 4 throws, and so does destructuring a missing colour.
   */
  function WriteSt(buf: seq<byte>, p: IndexedPalette): (r: Result<seq<byte>, JsError>)
    ensures r.Ok? ==> |r.value| == |buf|
    ensures r.Ok? <==> (p.bitsPerChannel == 3 || p.bitsPerChannel == 4) && forall c :: 0 <= c < |p.colors| ==> p.colors[c].Some?
    ensures p.bitsPerChannel != 3 && p.bitsPerChannel != 4 ==> r == Err(Thrown(DepthMessage))
  {
    if p.bitsPerChannel != 3 && p.bitsPerChannel != 4 then Err(Thrown(DepthMessage))
    else if exists c :: 0 <= c < |p.colors| && p.colors[c].None? then Err(TypeError)
    else Ok(StoreColors(buf, p, 0))
  }

  // ---------------------------------------------------------------------------
  // Reading and writing are inverse

  /** The byte a Uint8Array ends up holding after storing `v`. */
  function ByteOf(v: real): byte
  {
    ToUint32(v) % 256
  }

  lemma ByteOfByte(n: byte)
    ensures ByteOf(n as real) == n
  {
    TruncInt(n);
    DivModUnique(n, Two32, 0, n);
  }

  /** The byte stored at position i by the colour loop, for i below twice the palette length. */
  function StoredByte(p: IndexedPalette, i: nat): byte
    requires i < 2 * |p.colors| && p.colors[i / 2].Some?
  {
    var (hi, lo) := ColorBytes(p.colors[i / 2].value, p.bitsPerChannel);
    if i % 2 == 0 then ByteOf(hi) else ByteOf(lo)
  }

  /** Position i after the loop from `from` on: the colour's byte if the loop reached it, else the old byte. */
  lemma {:induction false} StoreColorsAt(buf: seq<byte>, p: IndexedPalette, from: nat, i: nat)
    requires forall c :: 0 <= c < |p.colors| ==> p.colors[c].Some?
    requires i < |buf|
    ensures StoreColors(buf, p, from)[i] == if 2 * from <= i < 2 * |p.colors| then StoredByte(p, i) else buf[i]
    decreases |p.colors| - from
  {
    if from < |p.colors| {
      var (hi, lo) := ColorBytes(p.colors[from].value, p.bitsPerChannel);
      StoreColorsAt(Store(Store(buf, 2 * from, hi), 2 * from + 1, lo), p, from + 1, i);
    }
  }

  lemma WriteStBytes(buf: seq<byte>, p: IndexedPalette) returns (out: seq<byte>)
    requires p.bitsPerChannel == 3 || p.bitsPerChannel == 4
    requires forall c :: 0 <= c < |p.colors| ==> p.colors[c].Some?
    requires |buf| == 2 * |p.colors|
    ensures WriteSt(buf, p) == Ok(out) && |out| == |buf|
    ensures forall i :: 0 <= i < |out| ==> out[i] == StoredByte(p, i)
  {
    out := StoreColors(buf, p, 0);
    forall i | 0 <= i < |out|
      ensures out[i] == StoredByte(p, i)
    {
      StoreColorsAt(buf, p, 0, i);
    }
  }

  /** The channels of a palette word whose high byte keeps its top nibble clear. */
  lemma WordNibbles(buf: seq<byte>, c: nat)
    requires 2 * c + 1 < |buf| && buf[2 * c] < 16
    ensures Parse4bit(WordAt(buf, c)) == Rgb(buf[2 * c], buf[2 * c + 1] / 16, buf[2 * c + 1] % 16)
  {
    var hi: nat, lo: nat := buf[2 * c], buf[2 * c + 1];
    var w := hi * 256 + lo;
    DivModUnique(w, 256, hi, lo);
    DivModUnique(w, 16, hi * 16 + lo / 16, lo % 16);
    DivModUnique(hi * 16 + lo / 16, 16, hi, lo / 16);
  }

  lemma EntryWithin(c: Rgb, bits: nat)
    requires bits == 3 || bits == 4
    requires bits == 3 ==> c.r < 8 && c.g < 8 && c.b < 8
    ensures Entry(c, bits) == Some(Color(c.r as real, c.g as real, c.b as real, (Pow2(bits) - 1) as real))
  {
    MaxChannelValue(bits);
  }

  /** An ST colour's bytes survive reading and writing. */
  lemma StBytes(hi: byte, lo: byte)
    requires hi < 8 && lo / 16 < 8 && lo % 16 < 8
    ensures var (x, y) := ColorBytes(Entry(Rgb(hi, lo / 16, lo % 16), 3).value, 3);
            ByteOf(x) == hi && ByteOf(y) == lo
  {
    var g, b := lo / 16, lo % 16;
    EntryWithin(Rgb(hi, g, b), 3);
    ByteOfByte(hi);
    ByteOfByte(lo);
    ShiftNibble(g);
  }

  /** `g << 4` for a channel value below 16. */
  lemma ShiftNibble(g: nat)
    requires g < 16
    ensures ShiftLeft(g as real, 4) == g * 16
  {
    ToInt32OfInt(g);
    assert Pow2(4) == 16;
    DivModUnique(g * 16, Two32, 0, g * 16);
  }

  /** An STE colour's bytes survive reading and writing. */
  lemma SteBytes(hi: byte, lo: byte)
    requires hi < 16
    ensures var (x, y) := ColorBytes(Entry(Rgb(FromSte(hi), FromSte(lo / 16), FromSte(lo % 16)), 4).value, 4);
            ByteOf(x) == hi && ByteOf(y) == lo
  {
    var g, b := lo / 16, lo % 16;
    var q := Rgb(FromSte(hi), FromSte(g), FromSte(b));
    var e := Entry(q, 4).value;
    assert e.r == q.r as real && e.g == q.g as real && e.b == q.b as real by {
      EntryWithin(q, 4);
    }
    assert ToSte(ToInt32(e.r)) == hi by {
      ToInt32OfInt(q.r);
      SteBijection(hi);
    }
    assert ToSte(ToInt32(e.g)) == g by {
      ToInt32OfInt(q.g);
      SteBijection(g);
    }
    assert ToSte(ToInt32(e.b)) == b by {
      ToInt32OfInt(q.b);
      SteBijection(b);
    }
    assert g * 16 + b == lo;
    ByteOfByte(hi);
    ByteOfByte(lo);
  }

  /** The two bytes written for a colour read from a word give back that word's bytes. */
  lemma EntryBytes(buf: seq<byte>, c: nat, ste: bool)
    requires 2 * c + 1 < |buf| && buf[2 * c] < 16
    requires !ste ==> !SteOnly(WordAt(buf, c))
    ensures var e := if ste then Entry(ParseSte(WordAt(buf, c)), 4) else Entry(Parse4bit(WordAt(buf, c)), 3);
            var (hi, lo) := ColorBytes(e.value, if ste then 4 else 3);
            ByteOf(hi) == buf[2 * c] && ByteOf(lo) == buf[2 * c + 1]
  {
    WordNibbles(buf, c);
    if ste {
      SteBytes(buf[2 * c], buf[2 * c + 1]);
    } else {
      StBytes(buf[2 * c], buf[2 * c + 1]);
    }
  }

  /**
   * Reading a palette from bytes and writing it back reproduces the bytes,
   * for both the ST and the STE form, provided each colour word keeps its
   * top four bits clear (the reader ignores them).
   */
  lemma BytesRoundTrip(buf: seq<byte>, colors: nat, out: seq<byte>)
    requires 2 * colors <= |buf| && |out| == 2 * colors
    requires forall c :: 0 <= c < colors ==> buf[2 * c] < 16
    ensures WriteSt(out, CreateSt(buf, colors)) == Ok(buf[..2 * colors])
  {
    var p := CreateSt(buf, colors);
    var written := WriteStBytes(out, p);
    forall i | 0 <= i < 2 * colors
      ensures written[i] == buf[i]
    {
      StoredBack(buf, colors, i);
    }
    assert written == buf[..2 * colors];
  }

  /** Byte i of the palette read from `buf` is stored back as it was. */
  lemma StoredBack(buf: seq<byte>, colors: nat, i: nat)
    requires 2 * colors <= |buf| && i < 2 * colors
    requires forall c :: 0 <= c < colors ==> buf[2 * c] < 16
    ensures StoredByte(CreateSt(buf, colors), i) == buf[i]
  {
    var c := i / 2;
    StoredPair(buf, colors, c);
    if i % 2 == 0 {
      assert i == 2 * c;
    } else {
      assert i == 2 * c + 1;
    }
  }

  lemma StoredPair(buf: seq<byte>, colors: nat, c: nat)
    requires 2 * colors <= |buf| && c < colors && buf[2 * c] < 16
    ensures var p := CreateSt(buf, colors);
            var (hi, lo) := ColorBytes(p.colors[c].value, p.bitsPerChannel);
            ByteOf(hi) == buf[2 * c] && ByteOf(lo) == buf[2 * c + 1]
  {
    var p := CreateSt(buf, colors);
    var ste := p.bitsPerChannel == 4;
    if ste {
      assert p.colors[c] == Entry(ParseSte(WordAt(buf, c)), 4);
    } else {
      assert !SteOnly(WordAt(buf, c));
      assert p.colors[c] == Entry(Parse4bit(WordAt(buf, c)), 3);
    }
    EntryBytes(buf, c, ste);
  }

  /**
   * A palette as the readers produce it: 3 or 4 bits, no holes, whole
   * channels in range, and the alpha channel at its maximum (the words do not
   * store alpha).
   */
  predicate AtariPalette(p: IndexedPalette)
  {
    && (p.bitsPerChannel == 3 || p.bitsPerChannel == 4)
    && WellFormed(p)
    && forall c :: 0 <= c < |p.colors| ==>
         p.colors[c].Some? && WholeColor(p.colors[c].value) && ColorWithin(p.colors[c].value, 15)
         && p.colors[c].value.a == MaxChannel(p.bitsPerChannel) as real
  }

  function Nibbles(col: Color): Rgb
    requires ColorWithin(col, 15)
  {
    Rgb(col.r.Floor, col.g.Floor, col.b.Floor)
  }

  /** A 4-bit colour whose channels are all even has no STE bit once encoded. */
  predicate EvenColor(col: Color)
    requires ColorWithin(col, 15)
  {
    var n := Nibbles(col);
    n.r % 2 == 0 && n.g % 2 == 0 && n.b % 2 == 0
  }

  /** The ST palette a 4-bit palette of even channels is read back as: every channel halved. */
  function Halve(p: IndexedPalette): (q: IndexedPalette)
    requires AtariPalette(p) && p.bitsPerChannel == 4
    ensures q.bitsPerChannel == 3 && |q.colors| == |p.colors|
  {
    MaxChannelValue(4);
    IndexedPalette(3, seq(|p.colors|, c requires 0 <= c < |p.colors| =>
      var n := Nibbles(p.colors[c].value);
      Some(Color((n.r / 2) as real, (n.g / 2) as real, (n.b / 2) as real, 7.0))))
  }

  lemma WholeChannel(x: real, max: int)
    requires Whole(x) && 0.0 <= x <= max as real && max < 256
    ensures 0 <= x.Floor <= max && ToInt32(x) == x.Floor && ByteOf(x) == x.Floor
  {
    ToInt32OfInt(x.Floor);
    ByteOfByte(x.Floor);
  }

  /** The nibbles a colour's two bytes carry, for either depth. */
  function StoredNibbles(col: Color, bits: nat): Rgb
    requires ColorWithin(col, 15)
  {
    var n := Nibbles(col);
    if bits == 3 then n else Rgb(ToSte(n.r), ToSte(n.g), ToSte(n.b))
  }

  lemma ColorBytesSt(col: Color)
    requires ColorWithin(col, 7) && WholeColor(col)
    ensures var n := Nibbles(col);
            ByteOf(ColorBytes(col, 3).0) == n.r && ByteOf(ColorBytes(col, 3).1) == n.g * 16 + n.b
  {
    var n := Nibbles(col);
    assert ColorBytes(col, 3) == (n.r as real, (n.g * 16 + n.b) as real) by {
      assert col.g == n.g as real;
      ShiftNibble(n.g);
    }
    ByteOfByte(n.r);
    ByteOfByte(n.g * 16 + n.b);
  }

  lemma ColorBytesSte(col: Color)
    requires ColorWithin(col, 15) && WholeColor(col)
    ensures var n := StoredNibbles(col, 4);
            ByteOf(ColorBytes(col, 4).0) == n.r && ByteOf(ColorBytes(col, 4).1) == n.g * 16 + n.b
  {
    var n := StoredNibbles(col, 4);
    SteChannel(col.r);
    SteChannel(col.g);
    SteChannel(col.b);
    var hi, lo := n.r, n.g * 16 + n.b;
    assert ColorBytes(col, 4).0 == hi as real;
    assert ColorBytes(col, 4).1 == lo as real;
    ByteOfByte(hi);
    ByteOfByte(lo);
  }

  /** The STE encoding of a whole channel value, as the writer computes it. */
  lemma SteChannel(x: real)
    requires Whole(x) && 0.0 <= x <= 15.0
    ensures 0 <= x.Floor < 16 && ToSte(ToInt32(x)) == ToSte(x.Floor)
  {
    WholeChannel(x, 15);
  }

  /** The word written for colour c, parsed back into its three nibbles. */
  lemma WrittenWord(p: IndexedPalette, out: seq<byte>, c: nat)
    requires AtariPalette(p) && |out| == 2 * |p.colors| && c < |p.colors|
    ensures WriteSt(out, p).Ok?
    ensures Parse4bit(WordAt(WriteSt(out, p).value, c)) == StoredNibbles(p.colors[c].value, p.bitsPerChannel)
  {
    var bs := WriteStBytes(out, p);
    AtariWithin(p, c);
    var n := StoredNibbles(p.colors[c].value, p.bitsPerChannel);
    assert bs[2 * c] == n.r && bs[2 * c + 1] == n.g * 16 + n.b by {
      StoredColorBytes(p, c);
      assert (2 * c) / 2 == c && (2 * c + 1) / 2 == c;
    }
    assert Parse4bit(WordAt(bs, c)) == n by {
      WordNibbles(bs, c);
      DivModUnique(bs[2 * c + 1], 16, n.g, n.b);
    }
  }

  lemma AtariWithin(p: IndexedPalette, c: nat)
    requires AtariPalette(p) && c < |p.colors|
    ensures ColorWithin(p.colors[c].value, 15)
    ensures p.bitsPerChannel == 3 ==> ColorWithin(p.colors[c].value, 7)
    ensures MaxChannel(p.bitsPerChannel) == if p.bitsPerChannel == 3 then 7 else 15
  {
    MaxChannelValue(p.bitsPerChannel);
    assert ColorWithin(p.colors[c].value, MaxChannel(p.bitsPerChannel));
  }

  lemma StoredColorBytes(p: IndexedPalette, c: nat)
    requires AtariPalette(p) && c < |p.colors|
    ensures var n := StoredNibbles(p.colors[c].value, p.bitsPerChannel);
            var (hi, lo) := ColorBytes(p.colors[c].value, p.bitsPerChannel);
            ByteOf(hi) == n.r && ByteOf(lo) == n.g * 16 + n.b
  {
    var col := p.colors[c].value;
    MaxChannelValue(p.bitsPerChannel);
    assert ColorWithin(col, MaxChannel(p.bitsPerChannel));
    if p.bitsPerChannel == 3 {
      ColorBytesSt(col);
    } else {
      ColorBytesSte(col);
    }
  }

  /** An encoded STE nibble has bit 3 set exactly when the channel is odd. */
  lemma SteBit(x: nibble)
    ensures ToSte(x) >= 8 <==> x % 2 == 1
  {
  }

  predicate HasOddChannel(p: IndexedPalette)
    requires AtariPalette(p)
  {
    exists c :: 0 <= c < |p.colors| && !EvenColor(p.colors[c].value)
  }

  /** The reader takes the written words for STE exactly when a 4-bit palette has an odd channel. */
  lemma SteDetected(p: IndexedPalette, out: seq<byte>)
    requires AtariPalette(p) && |out| == 2 * |p.colors|
    ensures WriteSt(out, p).Ok?
    ensures (exists c :: 0 <= c < |p.colors| && SteOnly(WordAt(WriteSt(out, p).value, c)))
            <==> p.bitsPerChannel == 4 && HasOddChannel(p)
  {
    WrittenOk(p, out);
    var bs := WriteSt(out, p).value;
    forall c | 0 <= c < |p.colors|
      ensures SteOnly(WordAt(bs, c)) <==> p.bitsPerChannel == 4 && !EvenColor(p.colors[c].value)
    {
      SteWord(p, out, c);
    }
  }

  lemma WrittenOk(p: IndexedPalette, out: seq<byte>)
    requires AtariPalette(p)
    ensures WriteSt(out, p).Ok?
  {
  }

  /** `SteDetected` for the word of colour c. */
  lemma SteWord(p: IndexedPalette, out: seq<byte>, c: nat)
    requires AtariPalette(p) && |out| == 2 * |p.colors| && c < |p.colors|
    ensures WriteSt(out, p).Ok?
    ensures SteOnly(WordAt(WriteSt(out, p).value, c)) <==> p.bitsPerChannel == 4 && !EvenColor(p.colors[c].value)
  {
    WrittenWord(p, out, c);
    AtariWithin(p, c);
    StoredSteBits(p.colors[c].value, p.bitsPerChannel);
  }

  /** The stored nibbles use bit 3 exactly when an STE colour has an odd channel. */
  lemma StoredSteBits(col: Color, bits: nat)
    requires (bits == 3 || bits == 4) && ColorWithin(col, 15) && (bits == 3 ==> ColorWithin(col, 7))
    ensures var n := StoredNibbles(col, bits);
            n.r >= 8 || n.g >= 8 || n.b >= 8 <==> bits == 4 && !EvenColor(col)
  {
    var m := Nibbles(col);
    SteBit(m.r);
    SteBit(m.g);
    SteBit(m.b);
  }

  lemma CreateStAt(buf: seq<byte>, colors: nat, c: nat)
    requires c < colors
    ensures CreateSt(buf, colors).colors[c]
            == if exists k :: 0 <= k < colors && SteOnly(WordAt(buf, k)) then Entry(ParseSte(WordAt(buf, c)), 4)
               else Entry(Parse4bit(WordAt(buf, c)), 3)
  {
  }

  /** An ST colour read back from its stored nibbles. */
  lemma EntrySt(col: Color)
    requires WholeColor(col) && ColorWithin(col, 7) && col.a == 7.0
    ensures Entry(StoredNibbles(col, 3), 3) == Some(col)
  {
    var m := Nibbles(col);
    assert col == Color(m.r as real, m.g as real, m.b as real, 7.0);
    MaxChannelValue(3);
    EntryWithin(m, 3);
  }

  /** An STE colour read back, as STE, from its stored nibbles. */
  lemma EntrySte(col: Color)
    requires WholeColor(col) && ColorWithin(col, 15) && col.a == 15.0
    ensures var s := StoredNibbles(col, 4);
            Entry(Rgb(FromSte(s.r), FromSte(s.g), FromSte(s.b)), 4) == Some(col)
  {
    var m := Nibbles(col);
    var s := StoredNibbles(col, 4);
    assert col == Color(m.r as real, m.g as real, m.b as real, 15.0);
    assert Rgb(FromSte(s.r), FromSte(s.g), FromSte(s.b)) == m by {
      SteBijection(m.r);
      SteBijection(m.g);
      SteBijection(m.b);
    }
    assert Pow2(4) == 16;
    EntryWithin(m, 4);
  }

  /** An STE colour of even channels read back as an ST colour: each channel halved. */
  lemma EntryHalved(col: Color)
    requires WholeColor(col) && ColorWithin(col, 15) && EvenColor(col)
    ensures var m := Nibbles(col);
            Entry(StoredNibbles(col, 4), 3) == Some(Color((m.r / 2) as real, (m.g / 2) as real, (m.b / 2) as real, 7.0))
  {
    var m := Nibbles(col);
    var h := Rgb(m.r / 2, m.g / 2, m.b / 2);
    assert StoredNibbles(col, 4) == h by {
      HalvedChannel(m.r);
      HalvedChannel(m.g);
      HalvedChannel(m.b);
    }
    EntryWithin(h, 3);
    assert Pow2(3) == 8;
  }

  /** An even channel's STE encoding is the channel halved. */
  lemma HalvedChannel(x: nibble)
    requires x % 2 == 0
    ensures ToSte(x) == x / 2
  {
  }

  /** Colour c as the reader gives it back from the written bytes. */
  lemma ReadBack(p: IndexedPalette, out: seq<byte>, c: nat)
    requires AtariPalette(p) && |out| == 2 * |p.colors| && c < |p.colors|
    ensures WriteSt(out, p).Ok?
    ensures var back := CreateSt(WriteSt(out, p).value, |p.colors|);
            back.colors[c] == if p.bitsPerChannel == 3 || HasOddChannel(p) then p.colors[c] else Halve(p).colors[c]
  {
    var bs := WriteSt(out, p).value;
    var ste := p.bitsPerChannel == 4 && HasOddChannel(p);
    assert (exists k :: 0 <= k < |p.colors| && SteOnly(WordAt(bs, k))) <==> ste by {
      SteDetected(p, out);
    }
    CreateStAt(bs, |p.colors|, c);
    if !HasOddChannel(p) {
      assert EvenColor(p.colors[c].value);
    }
    WrittenWord(p, out, c);
    AtariWithin(p, c);
    var col := p.colors[c].value;
    if p.bitsPerChannel == 3 {
      EntrySt(col);
    } else if ste {
      EntrySte(col);
    } else {
      EntryHalved(col);
    }
  }

  /**
   * Writing a palette and reading it back: a 3-bit palette comes back as it
   * was; a 4-bit palette comes back as it was when some channel is odd, and
   * otherwise is taken for an ST palette with every channel halved.
   */
  lemma PaletteRoundTrip(p: IndexedPalette, out: seq<byte>)
    requires AtariPalette(p) && |out| == 2 * |p.colors|
    ensures WriteSt(out, p).Ok?
    ensures var back := CreateSt(WriteSt(out, p).value, |p.colors|);
            if p.bitsPerChannel == 3 || HasOddChannel(p) then back == p else back == Halve(p)
  {
    var back := CreateSt(WriteSt(out, p).value, |p.colors|);
    var target := if p.bitsPerChannel == 3 || HasOddChannel(p) then p else Halve(p);
    SteDetected(p, out);
    forall c | 0 <= c < |p.colors|
      ensures back.colors[c] == target.colors[c]
    {
      ReadBack(p, out, c);
    }
    assert back.colors == target.colors;
  }
}
