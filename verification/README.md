# imagedata bitplane core, in Dafny

A model of the shared core of the `imagedata` coders for Atari ST and Amiga
picture formats, with proofs about it. It covers:

- **The bitplane engine.** `BitplaneReader` and `BitplaneWriter` are a cursor
  (byte, block, line, bit) over a planar buffer with six stride parameters.
  There are three presets: word-interleaved, line-interleaved (ILBM) and
  contiguous (ACBM).
- **`IndexedPalette`.** Clamping on `setColor`, `resample`, `toValueArray`,
  `fromValueArray` and `fromImageData`.
- **The Atari ST/STE palette-word helpers.** `parse4bitRgbColor`,
  `parseAtariSteColor`, `createAtariSt(e)IndexedPalette` and
  `writeAtariStIndexedPalette`.
- **Packbits `depack`.**
- **The ImageData pixel adapters.** These look up an RGBA word in the palette
  and write one back.
- **The `decode` and `encode` drivers.**
- **The format decompressors:**
  - the Spectrum 512 palette-offset rule;
  - the SPC image RLE and palette masks;
  - the SPS ("smooshed") image RLE;
  - the Tiny word RLE with its column scatter;
  - the CrackArt escape RLE with its strided write cursor.

The modules are:

- `Bits`, `JsNumbers`: bit strings, big-endian words, JavaScript's 32-bit shifts.
- `Results`: Option, Result and the exceptions.
- `Bitplane`, `BitplaneLaws`, `BitplaneLayouts`: the engine, its write/read
  inverse law, and the three presets.
- `Palette`, `AtariColors`, `PixelAdapters`, `Drivers`.
- `Rle`, `PackBits`, `SpectrumRle`, `Spectrum512`, `Smooshed`, `Tiny`, `CrackArt`.

The JavaScript semantics that matter are modelled explicitly:

- `Uint8Array` reads past the end give `undefined`, which the source's shifts
  turn into 0. Writes past the end are dropped.
- `DataView` accesses past the end throw `RangeError`; the model returns `Err`.
- `x << s`, `x >>> 0` and `x | 0` wrap to 32 bits (`JsNumbers`).
- Array holes are `None`. `forEach`, `map` and `indexOf` skip them.

Each operation is a function or method whose contract says what it computes.
Each has a partner lemma that relates it to its inverse or to an independent
reference definition:

- writer then reader;
- `toValueArray` then `fromValueArray`, both ways;
- `writeAtariStIndexedPalette` then `createAtariStIndexedPalette`;
- an encoder written for the proof, then each decompressor;
- the completeness lemmas (`Parse`), which say every successful decode comes
  from such an encoding.

## Model

| member | source | states |
|---|---|---|
| Bitplane.AdvanceIncrements | imagedata-coder-bitplane/lib/BitplaneReader.js:157-172 | one cursor step adds one to the mixed-radix position (bit, byte, block, line) and keeps every digit in range |
| Bitplane.CursorAfterRank | imagedata-coder-bitplane/lib/BitplaneReader.js:157-172 | after n reads or writes from a fresh cursor the cursor sits at position n of the walk, with every field in range |
| Bitplane.CursorAfterClosedForm | imagedata-coder-bitplane/lib/BitplaneReader.js:157-172 | after n steps: bit = n mod 8, byte = (n div 8) mod bytesPerBlock, block and line are the next digits of n div 8 in base bytesPerBlock, blocksPerLine |
| Bitplane.DecodeByteGroup | imagedata-coder-bitplane/lib/BitplaneReader.js:142-152 | the nested batch loop yields, for each of the 8 bit positions, the index assembled from the planes' bytes at that bit |
| Bitplane.PixelIndexBits | imagedata-coder-bitplane/lib/BitplaneReader.js:143-150 | bit k of the decoded index i is bit 7 - i of the byte at pos + k*planeStep, and every decoded index is below 2^planes |
| Bitplane.Read | imagedata-coder-bitplane/lib/BitplaneReader.js:138-176 | `read()` returns the index whose plane bits sit at the cursor's base address `byte + block*blockStep + line*lineStep` and bit, below 2^planes; the cursor takes one step and the batch cache stays consistent with the buffer, which is only read |
| Bitplane.Write | imagedata-coder-bitplane/lib/BitplaneWriter.js:134-163 | `write(color)` ORs bit 7 - bit into the byte at pos + k*planeStep for each set bit k of color below `planes`, and advances the cursor exactly as the reader does |
| Bitplane.StampStep | imagedata-coder-bitplane/lib/BitplaneWriter.js:138-145 | one turn of the plane loop: the byte of plane k gains the cursor's bit when bit k of color is set and the byte is inside the buffer, and nothing else changes |
| Bits.ShrStep | imagedata-coder-bitplane/lib/BitplaneWriter.js:139-140 | at turn n of `bit = color & 1; color >>= 1` the bit taken is bit n of the original colour, so only the low `planes` bits are used |
| Bits.AssembleBits | imagedata-coder-bitplane/lib/BitplaneReader.js:144-150 | the `color \|= bit << plane` accumulation of n bits is a number below 2^n whose bit k is the k-th bit read |
| Bits.AssembleLowBits | imagedata-coder-bitplane/lib/BitplaneReader.js:144-150 | accumulating the low n bits of x gives x mod 2^n |
| Bits.SetBitBit | imagedata-coder-bitplane/lib/BitplaneWriter.js:143 | after `byte \|= 1 << b` bit b is set and every other bit of the byte is unchanged |
| Bits.SetBitBound | imagedata-coder-bitplane/lib/BitplaneWriter.js:143 | setting a bit below n keeps a value below 2^n |
| BitplaneLaws.WriteAllBits | imagedata-coder-bitplane/lib/BitplaneWriter.js:138-145 | writing into a zeroed buffer, a bit ends up set exactly when some written pixel targeted it: bits are never cleared and untouched bytes stay zero |
| BitplaneLaws.WrittenLast | imagedata-coder-bitplane/lib/BitplaneWriter.js:136-145 | a bit is targeted by a sequence of writes iff it is targeted by the earlier writes or by the last pixel at the last cursor position |
| BitplaneLaws.PlaneBitBack | imagedata-coder-bitplane/lib/BitplaneReader.js:143-150 | when no two (pixel, plane) slots share a byte and bit, plane k of pixel n holds bit k of the colour written there, after all the writes |
| BitplaneLaws.RoundTrip | imagedata-coder-bitplane/lib/BitplaneWriter.js:134-163 | for any stride parameters whose slots are disjoint and inside the buffer, writing n colours into a zeroed buffer and reading pixel i back gives colour i mod 2^planes |
| BitplaneLayouts.AddressClosedForm | imagedata-coder-bitplane/lib/BitplaneReader.js:140 | the byte address of pixel n, plane k, as arithmetic in n for any walkable stride set, with the pixel's bit n mod 8 |
| BitplaneLayouts.WordAddress | imagedata-coder-bitplane/lib/WordInterleavedBitplaneReader.js:16-17 | word-interleaved (2, 2p, 2, 4p, p, 2): pixel n, plane k is at byte (n div 16)*2p + (n mod 16) div 8 + 2k, whatever the width |
| BitplaneLayouts.WordSlotsDisjoint | imagedata-coder-bitplane/lib/WordInterleavedBitplaneWriter.js:15-16 | no two (pixel, plane) pairs of the word-interleaved layout share a byte and bit |
| BitplaneLayouts.WordSlotsWithin | imagedata-coder-bitplane/lib/WordInterleavedBitplaneWriter.js:15-16 | for a multiple of 16 pixels, every slot lies below (count/16)*2p bytes |
| BitplaneLayouts.WordRoundTrip | imagedata-coder-bitplane/lib/WordInterleavedBitplaneWriter.js:15-16 | the word-interleaved writer and reader are inverse on a zeroed buffer: each pixel reads back as its colour mod 2^planes |
| BitplaneLayouts.LineAddress | imagedata-coder-bitplane/lib/LineInterleavedBitplaneReader.js:16-18 | line-interleaved: pixel (y, x), plane k is at byte y*bpl*planes + x div 8 + k*bpl with bpl = width >> 3, bit x mod 8 |
| BitplaneLayouts.LineScanline | imagedata-coder-bitplane/lib/LineInterleavedBitplaneWriter.js:16-18 | every byte of scanline y lies in the bpl*planes consecutive bytes from y*bpl*planes |
| BitplaneLayouts.LineCoordinates | imagedata-coder-bitplane/lib/LineInterleavedBitplaneReader.js:16-18 | pixel n of the walk is scanline n div width, column n mod width, at the line-interleaved address |
| BitplaneLayouts.LinePair | imagedata-coder-bitplane/lib/LineInterleavedBitplaneWriter.js:16-18 | two (pixel, plane) pairs at the same byte and bit are the same pair |
| BitplaneLayouts.LineSlotsDisjoint | imagedata-coder-bitplane/lib/LineInterleavedBitplaneWriter.js:16-18 | no two slots of the line-interleaved layout collide, for any pixel count |
| BitplaneLayouts.LineSlotsWithin | imagedata-coder-bitplane/lib/LineInterleavedBitplaneWriter.js:16-18 | width*height pixels touch only the first height*bpl*planes bytes |
| BitplaneLayouts.LineRoundTrip | imagedata-coder-bitplane/lib/LineInterleavedBitplaneWriter.js:16-18 | the line-interleaved writer and reader with the same width and planes are inverse on a zeroed buffer |
| BitplaneLayouts.ContiguousAddress | imagedata-coder-bitplane/lib/ContiguousBitplaneReader.js:17-19 | contiguous: for n < width*height, pixel n, plane k is at byte n div 8 + k*bytesPerPlane with bytesPerPlane = (width >> 3)*height, below planes*bytesPerPlane |
| BitplaneLayouts.ContiguousSize | imagedata-coder-bitplane/lib/ContiguousBitplaneWriter.js:18 | a plane of (width >> 3)*height bytes holds exactly width*height pixels when the width is a multiple of 8 |
| BitplaneLayouts.ContiguousPair | imagedata-coder-bitplane/lib/ContiguousBitplaneWriter.js:17-19 | two in-image (pixel, plane) pairs at the same byte and bit are the same pair |
| BitplaneLayouts.ContiguousSlotsDisjoint | imagedata-coder-bitplane/lib/ContiguousBitplaneWriter.js:17-19 | no two slots of the first width*height pixels collide |
| BitplaneLayouts.ContiguousSlotsWithin | imagedata-coder-bitplane/lib/ContiguousBitplaneWriter.js:17-19 | those slots all lie below planes*bytesPerPlane |
| BitplaneLayouts.ContiguousRoundTrip | imagedata-coder-bitplane/lib/ContiguousBitplaneWriter.js:17-19 | the contiguous writer and reader are inverse for up to width*height pixels |
| Palette.MaxChannelValue | imagedata-coder-bitplane/lib/IndexedPalette.js:20 | `(1 << bits) - 1` is 2^bits - 1 for depths below 31 |
| JsNumbers.ShiftOneIsShiftLeft | imagedata-coder-bitplane/lib/IndexedPalette.js:20 | the closed form of `1 << n` used for channel maxima, 2^(n mod 32) read as a signed 32-bit value, agrees with the general ToInt32 shift of 1 |
| Palette.Clamp | imagedata-coder-bitplane/lib/IndexedPalette.js:38-41 | `Math.max(0, Math.min(v, max))` lies in [0, max] and leaves in-range values alone |
| Palette.NewPalette | imagedata-coder-bitplane/lib/IndexedPalette.js:18-22 | a new palette has `count` holes and the given depth |
| Palette.SetColor | imagedata-coder-bitplane/lib/IndexedPalette.js:35-43 | the depth is kept, the length grows to index + 1 when the index is past the end, and a well-formed palette stays well-formed: every entry within the channel range |
| Palette.GetSetColor | imagedata-coder-bitplane/lib/IndexedPalette.js:35-54 | `getColor(j)` after `setColor(index, ...)` is the clamped colour when j = index and the old entry otherwise |
| Palette.SetColorInRange | imagedata-coder-bitplane/lib/IndexedPalette.js:35-43 | a colour already within range is stored as it is |
| Palette.Resample | imagedata-coder-bitplane/lib/IndexedPalette.js:64-77 | the result has the new depth and the same length, holes exactly where the original has them, and in-range channels |
| Palette.ResampleEntry | imagedata-coder-bitplane/lib/IndexedPalette.js:67-74 | a present entry stays present and lands inside the new range, and a hole stays a hole |
| Palette.ScaledWithin | imagedata-coder-bitplane/lib/IndexedPalette.js:70-73 | c/oldMax*newMax of a channel within the old range lies within the new one |
| Palette.ResampleScales | imagedata-coder-bitplane/lib/IndexedPalette.js:68-74 | on a well-formed palette every present channel becomes exactly c/oldMax*newMax; the clamp never fires and nothing rounds |
| Palette.ResampleRoundTrip | imagedata-coder-bitplane/lib/IndexedPalette.js:64-77 | resampling to another depth and back gives the original palette, in exact arithmetic |
| Palette.ToValueArray | imagedata-coder-bitplane/lib/IndexedPalette.js:87-101 | one value per entry, with holes kept by `map` |
| Palette.Pack | imagedata-coder-bitplane/lib/IndexedPalette.js:89-99 | the packed value, after `>>> 0`, is an unsigned 32-bit number |
| JsNumbers.ShiftLeftPack | imagedata-coder-bitplane/lib/IndexedPalette.js:90-93 | `(r << 24) + (g << 16) + (b << 8) + a >>> 0` on bytes is the big-endian word of r, g, b, a, despite the signed shift of r |
| Palette.PackBytes | imagedata-coder-bitplane/lib/IndexedPalette.js:89-94 | an 8-bit colour of whole channels packs to the big-endian word of its four channel bytes |
| JsNumbers.ByteAtShiftBytes | imagedata-coder-bitplane/lib/IndexedPalette.js:149-152 | the four `v >> s & 0xff` extractions of a 32-bit value are its big-endian bytes, although `>>` reads it as signed |
| Palette.Unpack | imagedata-coder-bitplane/lib/IndexedPalette.js:149-152 | every unpacked channel is a byte |
| Palette.UnpackBytes | imagedata-coder-bitplane/lib/IndexedPalette.js:149-152 | a 32-bit value unpacks to the colour whose channels are its big-endian bytes |
| Palette.FromValueArray | imagedata-coder-bitplane/lib/IndexedPalette.js:146-156 | an 8-bit palette of the same length, in range, with holes where the array has them |
| Palette.ValueArrayRoundTrip | imagedata-coder-bitplane/lib/IndexedPalette.js:146-156 | an 8-bit palette of whole channels survives `toValueArray()` followed by `fromValueArray` |
| Palette.ValueArrayRoundTripBack | imagedata-coder-bitplane/lib/IndexedPalette.js:146-156 | unsigned 32-bit values survive `fromValueArray` followed by `toValueArray()` |
| Palette.Dedup | imagedata-coder-bitplane/lib/IndexedPalette.js:130-134 | the set's values have no duplicates, are exactly the inserted values, and are listed in the order of their first insertion |
| Palette.PixelWords | imagedata-coder-bitplane/lib/IndexedPalette.js:131-133 | one 32-bit word per whole 4-byte pixel |
| Palette.FromImageData | imagedata-coder-bitplane/lib/IndexedPalette.js:129-136 | succeeds iff the byte length is a multiple of 4 (otherwise the last `getUint32` throws RangeError); the result is an 8-bit palette with no holes |
| Palette.FromImageDataCovers | imagedata-coder-bitplane/lib/IndexedPalette.js:129-136 | every pixel's word appears in the palette's value array, and no value appears twice |
| Palette.FromImageDataOrder | imagedata-coder-bitplane/lib/IndexedPalette.js:129-136 | every palette value is some pixel's word, and the values appear in the order in which the pixels first show them |
| AtariColors.Parse4bit | imagedata-coder-bitplane/IndexedPaletteHelpers.js:16-22 | the nibbles at bits 8, 4 and 0 recombine to the word when it is below 0x1000 |
| AtariColors.SteBijection | imagedata-coder-bitplane/IndexedPaletteHelpers.js:30-37 | the STE rotation of `parseAtariSteColor` and the writer's `(x << 3 & 8) \| (x >> 1 & 7)` are mutually inverse on nibbles |
| AtariColors.WordAt | imagedata-coder-bitplane/IndexedPaletteHelpers.js:43 | `(buffer[2c] << 8) + buffer[2c+1]` is a 16-bit value, the big-endian word when both bytes exist |
| AtariColors.CreateSte | imagedata-coder-bitplane/IndexedPaletteHelpers.js:40-48 | a 4-bit palette of `colors` present, in-range entries |
| AtariColors.CreateSt | imagedata-coder-bitplane/IndexedPaletteHelpers.js:59-70 | the palette is 4-bit iff some word has a nibble with bit 3 set, 3-bit otherwise, with every entry present |
| AtariColors.CreateStAt | imagedata-coder-bitplane/IndexedPaletteHelpers.js:59-70 | entry c is the STE reading of word c when any word of the buffer is STE-only, else its raw nibbles |
| AtariColors.WriteSt | imagedata-coder-bitplane/IndexedPaletteHelpers.js:73-92 | succeeds iff the depth is 3 or 4 and no entry is a hole; any other depth throws the depth message; the buffer keeps its length |
| AtariColors.StoreColorsAt | imagedata-coder-bitplane/IndexedPaletteHelpers.js:75-88 | byte i after the loop is the byte stored for its colour if the loop reached it, else the old byte |
| AtariColors.WriteStBytes | imagedata-coder-bitplane/IndexedPaletteHelpers.js:74-88 | on a buffer of two bytes per colour every output byte is the one stored for its colour |
| AtariColors.StBytes | imagedata-coder-bitplane/IndexedPaletteHelpers.js:77-78 | the ST bytes `r` and `(g << 4) + b` of a colour read from bytes hi, lo are hi, lo again |
| AtariColors.SteBytes | imagedata-coder-bitplane/IndexedPaletteHelpers.js:83-87 | the STE bytes of a colour read with the STE rotation are the bytes it was read from |
| AtariColors.SteBit | imagedata-coder-bitplane/IndexedPaletteHelpers.js:83-85 | a channel's STE encoding has bit 3 set exactly when the channel is odd |
| AtariColors.SteWord | imagedata-coder-bitplane/IndexedPaletteHelpers.js:64-66 | the written word of colour c triggers the STE branch iff the palette is 4-bit and c has an odd channel |
| AtariColors.SteDetected | imagedata-coder-bitplane/IndexedPaletteHelpers.js:64-66 | the reader switches to STE on the written words exactly when the palette is 4-bit with some odd channel |
| AtariColors.BytesRoundTrip | imagedata-coder-bitplane/IndexedPaletteHelpers.js:59-92 | bytes whose high bytes keep their top nibble clear survive `createAtariStIndexedPalette` then `writeAtariStIndexedPalette` |
| AtariColors.ReadBack | imagedata-coder-bitplane/IndexedPaletteHelpers.js:59-92 | colour c read back from the written bytes is c itself, or c with halved channels for an all-even 4-bit palette |
| AtariColors.PaletteRoundTrip | imagedata-coder-bitplane/IndexedPaletteHelpers.js:59-92 | writing then creating gives back every 3-bit palette and every 4-bit palette with an odd channel; an all-even 4-bit palette comes back as the 3-bit palette of halved channels |
| PackBits.StepOn | imagedata-coder-bitplane/compression/packbits.js:15-32 | a step consumes input and never passes `size`; the loop is done exactly when the output is full |
| PackBits.DepackFrom | imagedata-coder-bitplane/compression/packbits.js:15-33 | a finished loop has produced exactly `size` bytes; every failure is a RangeError |
| PackBits.Depack | imagedata-coder-bitplane/compression/packbits.js:8-35 | the output holds exactly `size` bytes; running out of input or overrunning `size` throws RangeError |
| PackBits.DecodeStep | imagedata-coder-bitplane/compression/packbits.js:17-31 | the encoding of each token, whatever follows it, decodes to that token's bytes and leaves the rest: the no-op byte -128 yields nothing, header 1 - n repeats the next byte n times, header n - 1 copies the next n bytes |
| PackBits.DecodeTokens | imagedata-coder-bitplane/compression/packbits.js:15-33 | an encoded token stream followed by anything decodes to its expansion when that exactly fills `size` |
| PackBits.RoundTrip | imagedata-coder-bitplane/compression/packbits.js:8-35 | `depack` inverts the token encoding, whatever follows the encoded stream |
| PackBits.NextToken | imagedata-coder-bitplane/compression/packbits.js:17-31 | while output is due, the unread input starts with the encoding of a token that fits |
| PackBits.Parse | imagedata-coder-bitplane/compression/packbits.js:8-35 | every successful `depack` is the expansion of a token stream whose encoding is a prefix of the input |
| PackBits.Example | imagedata-coder-bitplane/compression/packbits.js:21-31 | `FE AA 02 80 01 02` depacks to `AA AA AA 80 01 02` |
| PackBits.LiteralExample | imagedata-coder-bitplane/compression/packbits.js:27-31 | `02 11 22 33` depacks to `11 22 33` |
| PackBits.RunExample | imagedata-coder-bitplane/compression/packbits.js:21-26 | `FE 99` depacks to `99 99 99` |
| PackBits.ShortInput | imagedata-coder-bitplane/compression/packbits.js:15-31 | for `00 07` with size 2, the one literal is copied and output is still due, so the next header read, a `getInt8` past the end, throws RangeError |
| PixelAdapters.Lookup | imagedata-coder-bitplane/lib/ImageDataIndexedPaletteReader.js:37-39 | `palette.resample(8).toValueArray()` has one entry per palette entry, with holes exactly where the palette has them |
| PixelAdapters.LookupWords | imagedata-coder-bitplane/lib/ImageDataIndexedPaletteWriter.js:23-25 | every present lookup value is an unsigned 32-bit word |
| PixelAdapters.IndexOf | imagedata-coder-bitplane/lib/ImageDataIndexedPaletteReader.js:20 | the first index holding the value, or -1 exactly when no entry holds it; holes never match |
| PixelAdapters.ReadPixel | imagedata-coder-bitplane/lib/ImageDataIndexedPaletteReader.js:18-26 | throws RangeError iff the pixel is past the end or its colour is not in the palette; otherwise returns the first index holding that big-endian word, as `indexOf` does, and the position moves by 4 |
| PixelAdapters.Skip | imagedata-coder-bitplane/lib/ImageDataIndexedPaletteReader.js:33-35 | `advance(n)` moves the position by 4n and keeps the palette |
| PixelAdapters.EofAfter | imagedata-coder-bitplane/lib/ImageDataIndexedPaletteReader.js:41-43 | a reader started at the first pixel is at `eof()` after n pixels exactly when the data holds n pixels, and a `read()` there throws RangeError |
| PixelAdapters.Entry | imagedata-coder-bitplane/lib/ImageDataIndexedPaletteWriter.js:19 | the word stored for an index: the lookup value when present, 0 for a hole or an index past the end |
| PixelAdapters.WritePixel | imagedata-coder-bitplane/lib/ImageDataIndexedPaletteWriter.js:18-21 | throws RangeError iff the pixel is past the end; otherwise the four bytes at the position are the big-endian word of the index's colour, and no other byte changes |
| PixelAdapters.PixelRoundTrip | imagedata-coder-bitplane/lib/ImageDataIndexedPaletteWriter.js:18-21 | reading back a pixel written with index i gives an index no later than i with the same colour, and advances by 4 |
| PixelAdapters.PixelRoundTripDistinct | imagedata-coder-bitplane/lib/ImageDataIndexedPaletteReader.js:18-26 | with distinct palette colours the index read back is exactly the one written |
| PixelAdapters.PixelRoundTripBack | imagedata-coder-bitplane/lib/ImageDataIndexedPaletteReader.js:18-26 | writing back the index just read leaves the pixel bytes unchanged |
| Drivers.Log2 | imagedata-coder-bitplane/decode.js:33-39 | a returned plane count is the exponent whose power of two is the palette length |
| Drivers.Log2OfPow2 | imagedata-coder-bitplane/decode.js:33-39 | every power of two yields its exponent, so only other lengths are rejected |
| Drivers.PlanesOf | imagedata-coder-bitplane/decode.js:41 | `planes \|= 0` leaves every count in [0, 2^31) unchanged |
| Drivers.DecodePlanes | imagedata-coder-bitplane/decode.js:30-41 | a given `planes` is accepted iff it is an integer; without one, decoding proceeds iff the palette length is a power of two, whose exponent is then the plane count; every failure throws the power-of-2 message |
| Drivers.CeilLog2 | imagedata-coder-bitplane/encode.js:34-36 | the fewest planes that index n colours: n <= 2^r and 2^(r-1) < n |
| Drivers.CeilLog2OfPow2 | imagedata-coder-bitplane/encode.js:35 | on a power of two the ceiling is the exact exponent |
| Drivers.EncodePlanes | imagedata-coder-bitplane/encode.js:22-36 | a non-zero `planes` option is used as given; otherwise the fewest planes for the palette length |
| Drivers.LayoutFor | imagedata-coder-bitplane/decode.js:45-56 | the format defaults to word; only an unknown format throws "Invalid format"; the layout has the requested planes |
| Drivers.LayoutRoundTrip | imagedata-coder-bitplane/encode.js:43-51 | for every known format, the writer and reader it selects are inverse on a zeroed buffer large enough for the image |
| Drivers.DecodedPixel | imagedata-coder-bitplane/decode.js:60-64 | pixel i of the decoded image is the big-endian palette word of the i-th index the bitplane reader returns |
| Drivers.DecodePixels | imagedata-coder-bitplane/decode.js:60-64 | the `while (bytesToRead)` loop runs exactly width*height read-write steps and yields the decoded pixels |
| Drivers.DecodeSpec | imagedata-coder-bitplane/decode.js:21-67 | decoding fails iff the width is not a multiple of 16, the plane count is rejected or the format is unknown; the image keeps its size |
| Drivers.Decode | imagedata-coder-bitplane/decode.js:21-67 | the driver, with its reader and writer loop, computes the decode specification |
| Drivers.DecodeDefault | imagedata-coder-bitplane/decode.js:30-56 | with `planes` left out and a power-of-two palette, decode reads every pixel through the layout for log2 of the length |
| Drivers.PixelIndices | imagedata-coder-bitplane/encode.js:55-59 | the reader's indices for n pixels exist iff every pixel's word is in the lookup, each naming its pixel's colour; otherwise RangeError |
| Drivers.PixelIndicesStep | imagedata-coder-bitplane/encode.js:56-58 | one more pixel either adds its index or makes every longer encode fail |
| Drivers.EncodePixels | imagedata-coder-bitplane/encode.js:55-59 | the loop succeeds iff every pixel's colour is in the palette, and then the buffer is the writer's output for those indices |
| Drivers.EncodeSpec | imagedata-coder-bitplane/encode.js:21-62 | encoding fails iff the width is not a multiple of 16, the format is unknown or a pixel's colour is missing; the buffer keeps its length |
| Drivers.Encode | imagedata-coder-bitplane/encode.js:21-62 | the driver, with its reader and writer loop, computes the encode specification |
| Drivers.EncodeDefault | imagedata-coder-bitplane/encode.js:34-36 | with `planes` left out and a power-of-two palette, encode uses log2 of its length |
| Drivers.DecodedAfterEncode | imagedata-coder-bitplane/decode.js:60-64 | decoding indices that name the pixels' own colours rebuilds those pixel bytes |
| Drivers.PixelsBack | imagedata-coder-bitplane/decode.js:60-64 | indices written in any selected layout into a zeroed buffer decode to the colours they index |
| Drivers.RoundTrip | imagedata-coder-bitplane/encode.js:21-62 | for a palette of power-of-two length holding every pixel colour, encode succeeds and decoding its output into a blank image of the same size gives back the image |
| Spectrum512.PaletteColorOffset | imagedata-coder-spectrum512/common.js:45-59 | with x1 = 10c - 5 (odd c) or 10c + 1 (even c): c + 48y left of x1, c + 16 + 48y inside the 160-pixel window, c + 32 + 48y to its right; for c < 16 the result lies in scanline y's 48 entries |
| Spectrum512.OffsetInjective | imagedata-coder-spectrum512/common.js:45-59 | distinct colours of one pixel never share a palette entry |
| Spectrum512.OffsetMonotone | imagedata-coder-spectrum512/common.js:53-58 | moving right along a scanline never moves a colour to an earlier palette |
| Spectrum512.Fit | imagedata-coder-spectrum512/compressed.js:65-80 | a `Uint8Array` of fixed size fed a byte stream: the stream's bytes up to the size, zeros after, bytes beyond the end dropped |
| Spectrum512.DecompressImage | imagedata-coder-spectrum512/compressed.js:63-85 | succeeds iff the RLE stream decodes; the result is its bytes in a zeroed 31840-byte image, with excess writes dropped |
| Spectrum512.ImageRoundTrip | imagedata-coder-spectrum512/compressed.js:63-85 | an SPC-encoded image of exactly 31840 bytes, followed by at most one stray byte, decompresses to itself |
| Spectrum512.MaskedWords | imagedata-coder-spectrum512/compressed.js:38-48 | n mask bits yield exactly n words, without reading past the source |
| Spectrum512.GroupAt | imagedata-coder-spectrum512/compressed.js:36-48 | each mask word yields exactly 16 words (32 bytes), consuming at least the mask word and never reading past the source |
| Spectrum512.GroupRoundTrip | imagedata-coder-spectrum512/compressed.js:38-48 | a mask whose bit c (LSB first) marks non-zero word c, followed by those words, decodes back to the words |
| Spectrum512.GroupStep | imagedata-coder-spectrum512/compressed.js:36-48 | a mask word followed by the words it keeps decodes to the 16-word palette, and decoding resumes right after them |
| Spectrum512.PaletteStreamRoundTrip | imagedata-coder-spectrum512/compressed.js:35-49 | a compressed table filling the rest of the source decodes to the table |
| Spectrum512.DecompressPalette | imagedata-coder-spectrum512/compressed.js:28-52 | succeeds iff the mask stream decodes and fits the 48*199*2-byte palette (a `setUint16` past it throws RangeError); the result is the decoded words then zeros |
| Spectrum512.PaletteRoundTrip | imagedata-coder-spectrum512/compressed.js:28-52 | the palette decompressor inverts mask compression on every full 199-line table |
| SpectrumRle.HeaderOf | imagedata-coder-spectrum512/compressed.js:72-81 | a run header asks for 3 to 130 copies and a copy header for 1 to 128 literal bytes, under either scheme |
| SpectrumRle.HeaderInverse | imagedata-coder-spectrum512/smooshed.js:93-103 | every header byte is the encoding of the header it decodes to: 258 - n or n - 3 for runs, n - 1 or 127 + n for copies |
| SpectrumRle.HeaderOfEncoded | imagedata-coder-spectrum512/compressed.js:72-81 | the header of an encoded token asks for exactly that token |
| SpectrumRle.DecodeStep | imagedata-coder-spectrum512/compressed.js:72-82 | one encoded token decodes to its bytes and decoding goes on just after it |
| SpectrumRle.DecodeTokens | imagedata-coder-spectrum512/compressed.js:71-83 | an encoded stream followed by at most one stray byte decodes to its expansion, since the loop stops at `byteLength - 1` |
| SpectrumRle.RoundTrip | imagedata-coder-spectrum512/smooshed.js:92-104 | under both the SPC and the SPS header scheme, decoding inverts encoding |
| SpectrumRle.NextToken | imagedata-coder-spectrum512/smooshed.js:92-104 | wherever decoding succeeds with two or more bytes left, the source holds the encoding of a token |
| SpectrumRle.Parse | imagedata-coder-spectrum512/compressed.js:71-83 | every successful decode is the expansion of an encoded token stream that fills the source up to one stray byte |
| Smooshed.DecompressImage | imagedata-coder-spectrum512/smooshed.js:83-106 | succeeds iff the SPS stream decodes and fits 31840 bytes (`setUint8` past the end throws); the result is the stream then zeros |
| Smooshed.ImageRoundTrip | imagedata-coder-spectrum512/smooshed.js:83-106 | an SPS-encoded 31840-byte image decompresses to itself |
| Smooshed.Overflow | imagedata-coder-spectrum512/smooshed.js:96-102 | a stream that decodes to more than the image holds throws RangeError rather than being cut short |
| Smooshed.Example | imagedata-coder-spectrum512/smooshed.js:94-103 | header 0x02 repeats the next byte five times and header 0x81 copies the next two bytes |
| Tiny.Offset | imagedata-coder-tiny/decompress.js:59 | the scatter offset of a count below 16000 is a screen word |
| Tiny.CountAtOffset | imagedata-coder-tiny/decompress.js:59 | the explicit inverse recovers the count from its offset |
| Tiny.OffsetBijective | imagedata-coder-tiny/decompress.js:59 | on counts below 16000 the offset is injective and hits every screen word |
| Tiny.CommandAt | imagedata-coder-tiny/decompress.js:40-54 | x < 0 or x = 1 copies; x < 0 or x > 1 counts \|x\| and moves 1; otherwise the count is the next big-endian word and the control position moves 3, which throws when the word is missing |
| Tiny.Step | imagedata-coder-tiny/decompress.js:59-65 | one word: throws iff the data word or the target is past the end; otherwise the data word lands at word `offset`, nothing else changes, the count grows by 1 and the data position by 1 when copying |
| Tiny.Fill | imagedata-coder-tiny/decompress.js:56-66 | the inner loop grows the count by n and moves the data position by n when copying |
| Tiny.Apply | imagedata-coder-tiny/decompress.js:56-70 | a command grows the count by its `data_count`; the data position moves by that count for a copy, by 1 after a repeat |
| Tiny.FillAt | imagedata-coder-tiny/decompress.js:56-66 | after an in-range fill, screen word o holds the data word for its count when the fill reached that count, and its old value otherwise |
| Tiny.FillBeyond | imagedata-coder-tiny/decompress.js:57-60 | a fill never touches bytes past the 16000-word screen |
| Tiny.DecompressFrom | imagedata-coder-tiny/decompress.js:39-72 | the control loop keeps the buffer's length and fails only with RangeError |
| Tiny.Decompress | imagedata-coder-tiny/decompress.js:29-74 | the decompressor keeps the buffer's length and fails only with RangeError |
| Tiny.DecompressCopyAll | imagedata-coder-tiny/decompress.js:48-54 | control bytes `01 3E 80` are one copy of 16000 words |
| Tiny.GatherAt | imagedata-coder-tiny/decompress.js:59 | data word k of the gathered screen is screen word `offset(k)` |
| Tiny.Rebuilds | imagedata-coder-tiny/decompress.js:56-66 | a full copy of the gathered words rebuilds the screen byte for byte |
| Tiny.RoundTrip | imagedata-coder-tiny/decompress.js:29-74 | every screen, gathered in decoding order and copied by one command, decompresses to itself |
| CrackArt.Fresh | imagedata-coder-crackart/compression.js:21-32 | 32000 bytes of `initial`, with 32000 bytes still to write |
| CrackArt.WriteByte | imagedata-coder-crackart/compression.js:3-11 | `writeByte` stores at the cursor only and decrements `remaining`; the cursor steps by `offset`, or restarts one column on when it reaches the end |
| CrackArt.WriteAll | imagedata-coder-crackart/compression.js:3-11 | n writes keep the screen size and decrement `remaining` by n |
| CrackArt.WriteAllAppend | imagedata-coder-crackart/compression.js:3-11 | writing a + b is writing a, then b |
| CrackArt.ColPos | imagedata-coder-crackart/compression.js:3-11 | for a stride dividing 32000, byte k of the stream lands on the screen and the column order finds it again |
| CrackArt.PosCol | imagedata-coder-crackart/compression.js:3-11 | every screen byte is the landing place of one byte of the stream |
| CrackArt.CursorStep | imagedata-coder-crackart/compression.js:3-11 | one `writeByte` moves the cursor from stream byte k to stream byte k + 1 |
| CrackArt.WriteColumns | imagedata-coder-crackart/compression.js:3-11 | after writing s from stream byte k, each screen byte holds its byte of s if s covered it, and its old value otherwise |
| CrackArt.ScreenFromColumns | imagedata-coder-crackart/compression.js:3-11 | writing a screen's bytes in column order from a fresh start puts every byte back |
| CrackArt.LongAt | imagedata-coder-crackart/compression.js:13-15 | as written, `getUint16(inPos += 2)` takes the count from the fill byte and the byte after it, plus 1, and resumes on that second byte; the intended reading takes the count from the next two bytes, plus 1, and the fill byte after them; both fail only with RangeError |
| CrackArt.CommandAt | imagedata-coder-crackart/compression.js:37-77 | a non-escape byte is a one-byte write of itself; every run writes at least one byte; each command consumes input without passing its end; failures are RangeError |
| CrackArt.Loop | imagedata-coder-crackart/compression.js:34-78 | the loop stops with the screen once `remaining` is 0, keeps the screen size, and fails only with RangeError |
| CrackArt.Int16 | imagedata-coder-crackart/compression.js:25 | `getInt16` is a signed 16-bit value, equal to the unsigned word when non-negative |
| CrackArt.Decompress | imagedata-coder-crackart/compression.js:1-81 | the output is the 32000-byte screen; failures are RangeError, and an input shorter than the 4-byte header throws |
| CrackArt.DecodeStep | imagedata-coder-crackart/compression.js:37-77 | each code decodes to its command whatever follows: a plain byte, a doubled escape, `escape 0 n b` (n + 1 copies of b), `escape 1` with a word and b, `escape 2 hi lo` (a run of `initial`), `escape k b` (k + 1 copies) |
| CrackArt.DecodeCodes | imagedata-coder-crackart/compression.js:34-78 | an encoded code stream whose bytes exactly fill `remaining` ends the loop with the screen those bytes make |
| CrackArt.FillRestStep | imagedata-coder-crackart/compression.js:57-68 | `escape, 2, 0` fills every remaining byte with `initial` and ends the loop |
| CrackArt.FillRestHangs | imagedata-coder-crackart/compression.js:66-68 | after a run that overshot the screen, `escape, 2, 0` never ends |
| CrackArt.Header | imagedata-coder-crackart/compression.js:23-25 | a 4-byte header that the decompressor reads as escape, initial and stride |
| CrackArt.RoundTrip | imagedata-coder-crackart/compression.js:1-81 | a header followed by any code stream whose bytes are the screen in column order decompresses to that screen; under the as-written reading this holds for streams without long runs |
| CrackArt.Literals | imagedata-coder-crackart/compression.js:39-45 | every byte as a one-byte code, the escape byte doubled; encodable under both readings |
| CrackArt.LiteralBytes | imagedata-coder-crackart/compression.js:39-45 | literal codes write exactly their bytes |
| CrackArt.LiteralRoundTrip | imagedata-coder-crackart/compression.js:1-81 | any screen compresses byte by byte to a stream that decompresses to it, for any stride dividing 32000 |
| CrackArt.LongAsWritten | imagedata-coder-crackart/compression.js:51-56 | for `escape 1 hi lo b x`, as written the run is `(b << 8) + x + 1` copies of b resuming at x; intended, it is `(hi << 8) + lo + 1` copies of b |
| CrackArt.LongExample | imagedata-coder-crackart/compression.js:13-15 | `AA 01 00 05 77 10` asks for 6 copies of 0x77 but, as written, gets 30481 |
| CrackArt.LongAtEnd | imagedata-coder-crackart/compression.js:13-15 | a long run that ends the input throws RangeError as written, since the word is read past the end |

## Left out

- ResampleRoundTrip: IndexedPalette channels are JavaScript doubles, but the model computes `c / oldMax * newMax` in exact rationals. In doubles the round trip holds only up to rounding: a 4-bit channel 3 resampled to 2 bits is 0.6000000000000001, and back it is 3.0000000000000004. The exact equality is therefore a statement about the arithmetic the source evidently intends, not about its double results.
- Resample: the same exact-rational arithmetic as above. The model also requires `(1 << bitsPerChannel) - 1 != 0`. That excludes 0-bit palettes and 32-bit palettes (where `1 << 32` is 1). In JavaScript, resampling those divides by zero, and the NaN channels are stored as 0 by a clamped byte array.
- Lookup: requires the same non-zero channel maximum, so the NaN-to-0 pixel words of 0- and 32-bit palettes are not modelled.
- Decode: requires a non-zero channel maximum, like `Lookup`. Decoding with a 0- or 32-bit palette, which JavaScript completes with zero pixels, is outside the model. The same holds for `DecodeSpec`, `Encode`, `EncodeSpec` and `RoundTrip`.
- Log2: computes the exact logarithm. The source's `Math.log(n) / Math.log(2)` is 29.000000000000004 for 2^29 and 31.000000000000004 for 2^31. For those lengths `decode` throws "Palette length must be a power of 2" where the model decodes.
- CeilLog2: the exact ceiling. For 2^29 and 2^31 the source's `Math.ceil` of the rounded quotient picks one plane more (30 and 32) than the model.
- Read: `color |= bit << plane` is modelled as exact addition of 2^plane. JavaScript's shift is 32-bit, so plane 31 sets the sign bit and from plane 32 the count wraps mod 32. The index bound below 2^planes therefore holds of the source only for up to 31 planes and for a non-negative reading of plane 31. A caller can reach this through `options.planes`.
- Write: `color >>= 1` is modelled as exact halving. The source's signed 32-bit shift agrees for colours below 2^31 and for the first 32 planes only.
- WriteSt: on a hole, the source throws a TypeError after storing the earlier colours into the caller's buffer. The model returns the error and drops that partly written buffer.
- EncodePixels: when a pixel's colour is missing, the source throws after writing the earlier pixels into the caller's buffer. The model returns only the error. The same holds for `Encode` and `EncodeSpec`.
- Decompress (Tiny): a RangeError part-way leaves the caller's `outBuffer` partly written. The model returns only the error.
- Decode and encode run inside a Promise executor, so a throw becomes a rejection. The model returns the error.
- A non-numeric `options.planes` for decode, and a fractional or negative one for encode, are not modelled. Decode takes a number or nothing; encode takes a natural or nothing.
- No lemma states the 16-pixel word-interleaved example (index 1, four planes, plane-0 bytes 0xFF). `WordAddress` and `WriteAllBits` together give the bytes.
- The closed form of the CrackArt write order (`ColPos`, `WriteColumns`, `RoundTrip`) is proved for strides that divide 32000. Other strides are modelled by `WriteByte`, but no round trip is stated for them.
- Packbits has no encoder among the source files. `PackBits.Encode` is a reference encoder written only to state the round trip.
- The SPS `decompressPalette` reads through `BitReader.js`, which is not part of this model. `BitView.js`, `createPalette` and the file-level `decode` functions of each format (header checks, slicing) are also left out.
- The IFF, Degas, NEOchrome, STOS and PNG containers and the drawing subsystem are outside the core.
- `setColor` with an index past the end grows the array, as the code does. The class documentation calls the length fixed; the model follows the code.
- The bitplane classes document a RangeError for out-of-range access, but typed-array indexing never throws. The model follows the code: reads past the end give 0 bits and writes past the end are dropped. The round-trip lemmas state in-bounds access as a premise.

## Findings

| source | as written | input that shows it | evidently intended | confidence | as-written member | corrected member |
|---|---|---|---|---|---|---|
| imagedata-coder-crackart/compression.js:13-15, 51-56 | `readWord` returns `getUint16(inPos += 2)`: it adds 2 before reading. So for `escape, 1, hi, lo, b` it reads the count from `b` and the byte after it, takes `b` as the fill byte, and resumes on the byte after `b`. | `AA 01 00 05 77 10` with escape 0xAA: six copies of 0x77 are meant, but 0x7710 + 1 = 30481 copies are written, and decoding resumes at 0x10 | read the count from `hi, lo` (the next two bytes) and the fill byte after them, resuming after the fill byte | not executed | CrackArt.LongAsWritten | CrackArt.RoundTrip |
