/**
 * The bitplane addressing engine shared by BitplaneReader and BitplaneWriter.
 *
 * A planar image stores bit k of every pixel's palette index in plane k. The
 * engine walks the buffer with a cursor (byte within block, block within
 * line, line, bit within byte); the six stride parameters of a `Layout` say
 * where the bytes of each plane live. A pixel's plane-k bit is bit `7 - bit`
 * of the byte at `Base(cursor) + k * planeStep`.
 *
 * Buffer accesses follow Uint8Array semantics: a read past the end yields
 * `undefined`, which the source's shifts turn into 0, and a write past the end
 * is silently dropped. Nothing here throws.
 */
module Bitplane {
  import opened Bits

  /** The constructor parameters of BitplaneReader / BitplaneWriter. */
  datatype Layout = Layout(
    bytesPerBlock: nat,
    blockStep: nat,
    blocksPerLine: nat,
    lineStep: nat,
    planes: nat,
    planeStep: nat)

  /** The private cursor fields `#byte`, `#block`, `#line` and `#bit`. */
  datatype Cursor = Cursor(byte: nat, block: nat, line: nat, bit: nat)

  const Origin: Cursor := Cursor(0, 0, 0, 0)

  /** The byte address of plane 0 under the cursor. */
  function Base(l: Layout, c: Cursor): nat
  {
    c.byte + c.block * l.blockStep + c.line * l.lineStep
  }

  /** The cursor step taken after every read and every write. */
  function Advance(l: Layout, c: Cursor): Cursor
  {
    if c.bit < 7 then c.(bit := c.bit + 1)
    else if c.byte + 1 < l.bytesPerBlock then Cursor(c.byte + 1, c.block, c.line, 0)
    else if c.block + 1 < l.blocksPerLine then Cursor(0, c.block + 1, c.line, 0)
    else Cursor(0, 0, c.line + 1, 0)
  }

  /** The cursor after `n` steps from a freshly constructed reader or writer. */
  function CursorAfter(l: Layout, n: nat): Cursor
  {
    if n == 0 then Origin else Advance(l, CursorAfter(l, n - 1))
  }

  /** A cursor whose fields are within their ranges. */
  predicate InRange(l: Layout, c: Cursor)
  {
    c.bit < 8 && c.byte < l.bytesPerBlock && c.block < l.blocksPerLine
  }

  /** Position of a cursor in the walk: the mixed-radix number (line, block, byte, bit). */
  function Rank(l: Layout, c: Cursor): nat
  {
    ((c.line * l.blocksPerLine + c.block) * l.bytesPerBlock + c.byte) * 8 + c.bit
  }

  /** The address of plane `k` of the `n`-th pixel visited. */
  function Address(l: Layout, n: nat, k: nat): nat
  {
    Base(l, CursorAfter(l, n)) + k * l.planeStep
  }

  /** `buffer[i]` of a Uint8Array, where an index past the end reads as 0. */
  function ByteAt(buf: seq<byte>, i: nat): byte
  {
    if i < |buf| then buf[i] else 0
  }

  /** The plane bits of pixel `i` (0 = most significant bit) of the byte group at `pos`. */
  function PlaneBits(buf: seq<byte>, l: Layout, pos: nat, i: nat): (bs: seq<nat>)
    requires i < 8
    ensures |bs| == l.planes && IsBitString(bs)
  {
    seq(l.planes, k requires 0 <= k < l.planes => Bit(ByteAt(buf, pos + k * l.planeStep), 7 - i))
  }

  /** The palette index of pixel `i` of the byte group at `pos`: plane k supplies bit k. */
  function PixelIndex(buf: seq<byte>, l: Layout, pos: nat, i: nat): nat
    requires i < 8
  {
    Assemble(PlaneBits(buf, l, pos, i))
  }

  /** The eight indices a read at bit 0 decodes in one batch. */
  function ByteGroup(buf: seq<byte>, l: Layout, pos: nat): (g: seq<nat>)
    ensures |g| == 8
  {
    seq(8, i requires 0 <= i < 8 => PixelIndex(buf, l, pos, i))
  }

  /** The index the `n`-th call of `read()` returns. */
  function NthPixel(buf: seq<byte>, l: Layout, n: nat): nat
  {
    var c := CursorAfter(l, n);
    CursorBitInRange(l, n);
    PixelIndex(buf, l, Base(l, c), c.bit)
  }

  lemma {:induction false} CursorBitInRange(l: Layout, n: nat)
    ensures CursorAfter(l, n).bit < 8
  {
    if n > 0 {
      CursorBitInRange(l, n - 1);
    }
  }

  // ---------------------------------------------------------------------------
  // The cursor walk

  /** Advance is an increment of the mixed-radix position, and keeps every field in range. */
  lemma AdvanceIncrements(l: Layout, c: Cursor)
    requires InRange(l, c)
    ensures InRange(l, Advance(l, c))
    ensures Rank(l, Advance(l, c)) == Rank(l, c) + 1
  {
    var bpb := l.bytesPerBlock;
    var bpl := l.blocksPerLine;
    if c.bit == 7 && c.byte + 1 >= bpb {
      if c.block + 1 < bpl {
        assert (c.line * bpl + c.block + 1) * bpb == (c.line * bpl + c.block) * bpb + bpb;
      } else {
        assert (c.line + 1) * bpl == c.line * bpl + bpl;
        assert (c.line * bpl + c.block + 1) * bpb == (c.line * bpl + c.block) * bpb + bpb;
      }
    }
  }

  /** Well-formed layouts: every block holds a byte and every line a block. */
  predicate Walkable(l: Layout)
  {
    l.bytesPerBlock >= 1 && l.blocksPerLine >= 1
  }

  /** After n steps the cursor sits at position n of the walk. */
  lemma {:induction false} CursorAfterRank(l: Layout, n: nat)
    requires Walkable(l)
    ensures InRange(l, CursorAfter(l, n))
    ensures Rank(l, CursorAfter(l, n)) == n
  {
    if n > 0 {
      CursorAfterRank(l, n - 1);
      AdvanceIncrements(l, CursorAfter(l, n - 1));
    }
  }

  /**
   * Closed form of the walk: after n steps, bit = n mod 8, byte = (n div 8) mod
   * bytesPerBlock, block = (n div 8 div bytesPerBlock) mod blocksPerLine and
   * line = n div 8 div bytesPerBlock div blocksPerLine.
   */
  lemma CursorAfterClosedForm(l: Layout, n: nat)
    requires Walkable(l)
    ensures var c := CursorAfter(l, n);
            var bytes := n / 8;
            var blocks := bytes / l.bytesPerBlock;
            && c.bit == n % 8
            && c.byte == bytes % l.bytesPerBlock
            && c.block == blocks % l.blocksPerLine
            && c.line == blocks / l.blocksPerLine
  {
    CursorAfterRank(l, n);
    var c := CursorAfter(l, n);
    var bpb := l.bytesPerBlock;
    var bpl := l.blocksPerLine;
    var blocks := c.line * bpl + c.block;
    var bytes := blocks * bpb + c.byte;
    DivModUnique(n, 8, bytes, c.bit);
    DivModUnique(bytes, bpb, blocks, c.byte);
    DivModUnique(blocks, bpl, c.line, c.block);
  }

  // ---------------------------------------------------------------------------
  // Reading

  /** A BitplaneReader: its layout, cursor and the batch of eight decoded indices. */
  datatype Reader = Reader(layout: Layout, cursor: Cursor, colors: seq<nat>)

  function NewReader(l: Layout): Reader
  {
    Reader(l, Origin, [])
  }

  /**
   * The reader's representation invariant: between bytes the batch is stale,
   * within a byte it holds the decoded indices of the byte group under the cursor.
   */
  ghost predicate Coherent(buf: seq<byte>, r: Reader)
  {
    && r.cursor.bit < 8
    && (r.cursor.bit != 0 ==> r.colors == ByteGroup(buf, r.layout, Base(r.layout, r.cursor)))
  }

  /** The batch decode performed when the cursor reaches a new byte. */
  method DecodeByteGroup(buf: seq<byte>, l: Layout, pos: nat) returns (colors: seq<nat>)
    ensures colors == ByteGroup(buf, l, pos)
  {
    colors := [];
    var bitNo := 0;
    while bitNo < 8
      invariant 0 <= bitNo <= 8
      invariant colors == ByteGroup(buf, l, pos)[..bitNo]
    {
      var color := 0;
      var plane := 0;
      ghost var bits := PlaneBits(buf, l, pos, bitNo);
      while plane < l.planes
        invariant 0 <= plane <= l.planes
        invariant color == Assemble(bits[..plane])
      {
        var offset := pos + plane * l.planeStep;
        var bit := Bit(ByteAt(buf, offset), 7 - bitNo);
        // `color |= bit << plane`: bit `plane` of color is still clear, so OR adds.
        AssembleSnoc(bits[..plane], bit);
        assert bits[..plane + 1] == bits[..plane] + [bit];
        color := color + bit * Pow2(plane);
        plane := plane + 1;
      }
      assert bits[..plane] == bits;
      colors := colors + [color];
      bitNo := bitNo + 1;
    }
  }

  /**
   * `read()`: decode the byte group when the cursor is at bit 0, return the
   * cached index of the current bit, then advance the cursor.
   */
  method Read(buf: seq<byte>, r: Reader) returns (index: nat, r': Reader)
    requires Coherent(buf, r)
    ensures index == PixelIndex(buf, r.layout, Base(r.layout, r.cursor), r.cursor.bit)
    ensures index < Pow2(r.layout.planes)
    ensures r' == Reader(r.layout, Advance(r.layout, r.cursor), r'.colors)
    ensures Coherent(buf, r')
  {
    var l := r.layout;
    var pos := Base(l, r.cursor);
    var colors := r.colors;
    if r.cursor.bit == 0 {
      colors := DecodeByteGroup(buf, l, pos);
    }
    index := colors[r.cursor.bit];
    AssembleBits(PlaneBits(buf, l, pos, r.cursor.bit), 0);
    r' := Reader(l, Advance(l, r.cursor), colors);
  }

  /** Bit k of a decoded index is bit (7 - i) of plane k's byte, and the index has `planes` bits. */
  lemma PixelIndexBits(buf: seq<byte>, l: Layout, pos: nat, i: nat, k: nat)
    requires i < 8 && k < l.planes
    ensures Bit(PixelIndex(buf, l, pos, i), k) == Bit(ByteAt(buf, pos + k * l.planeStep), 7 - i)
    ensures PixelIndex(buf, l, pos, i) < Pow2(l.planes)
  {
    AssembleBits(PlaneBits(buf, l, pos, i), k);
  }

  // ---------------------------------------------------------------------------
  // Writing

  /** A BitplaneWriter: its layout and cursor. */
  datatype Writer = Writer(layout: Layout, cursor: Cursor)

  function NewWriter(l: Layout): Writer
  {
    Writer(l, Origin)
  }

  /** `byte |= 1 << i`. */
  function OrBit(b: byte, i: nat): byte
    requires i < 8
  {
    SetBitKeepsByte(b, i);
    SetBit(b, i)
  }

  /** Some plane k below `planes` has its bit set in `color` and addresses byte `j`. */
  ghost predicate Hit(l: Layout, pos: nat, color: nat, planes: nat, j: int)
  {
    exists k :: 0 <= k < planes && k < l.planes && Bit(color, k) == 1 && pos + k * l.planeStep == j
  }

  /**
   * The buffer after writing the first `planes` planes of `color` at `pos`,
   * `bit`: every hit byte gets bit (7 - bit) ORed in; every other byte is
   * unchanged, and bytes past the end are never created.
   */
  ghost function Stamp(buf: seq<byte>, l: Layout, pos: nat, bit: nat, color: nat, planes: nat): (r: seq<byte>)
    requires bit < 8
    ensures |r| == |buf|
  {
    seq(|buf|, j requires 0 <= j < |buf| =>
      if Hit(l, pos, color, planes, j) then OrBit(buf[j], 7 - bit) else buf[j])
  }

  /** `write(color)`: OR the cursor's bit into plane k's byte for each set bit k of color, then advance. */
  method Write(buf: seq<byte>, w: Writer, color: nat) returns (buf': seq<byte>, w': Writer)
    requires w.cursor.bit < 8
    ensures buf' == Stamp(buf, w.layout, Base(w.layout, w.cursor), w.cursor.bit, color, w.layout.planes)
    ensures w' == Writer(w.layout, Advance(w.layout, w.cursor))
  {
    var l := w.layout;
    var pos := Base(l, w.cursor);
    var b := w.cursor.bit;
    var rest := color;
    var plane := 0;
    buf' := buf;
    while plane < l.planes
      invariant 0 <= plane <= l.planes
      invariant rest == Shr(color, plane)
      invariant buf' == Stamp(buf, l, pos, b, color, plane)
    {
      ShrStep(color, plane);
      var bit := rest % 2;
      rest := rest / 2;
      var offset := pos + plane * l.planeStep;
      ghost var before := buf';
      if bit == 1 && offset < |buf'| {
        buf' := buf'[offset := OrBit(buf'[offset], 7 - b)];
      }
      StampStep(buf, l, pos, b, color, plane, before, buf');
      plane := plane + 1;
    }
    w' := Writer(l, Advance(l, w.cursor));
  }

  lemma StampStep(buf: seq<byte>, l: Layout, pos: nat, b: nat, color: nat, plane: nat, before: seq<byte>, after: seq<byte>)
    requires b < 8 && plane < l.planes
    requires before == Stamp(buf, l, pos, b, color, plane)
    requires var offset := pos + plane * l.planeStep;
             after == if Bit(color, plane) == 1 && offset < |before| then before[offset := OrBit(before[offset], 7 - b)] else before
    ensures after == Stamp(buf, l, pos, b, color, plane + 1)
  {
    var next := Stamp(buf, l, pos, b, color, plane + 1);
    var offset := pos + plane * l.planeStep;
    forall j | 0 <= j < |buf|
      ensures after[j] == next[j]
    {
      if j == offset && Bit(color, plane) == 1 {
        assert Hit(l, pos, color, plane + 1, j);
        if Hit(l, pos, color, plane, j) {
          SetBitIdempotent(buf[j], 7 - b);
        }
      } else if Hit(l, pos, color, plane + 1, j) {
        var k :| 0 <= k < plane + 1 && k < l.planes && Bit(color, k) == 1 && pos + k * l.planeStep == j;
        assert k != plane;
        assert Hit(l, pos, color, plane, j);
      }
    }
  }
}
