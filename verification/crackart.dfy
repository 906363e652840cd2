/**
 * The CrackArt decompressor. A header gives an escape byte, the byte the
 * screen starts filled with, and a signed stride. Bytes are written through a
 * cursor that steps by the stride and, on running off the end of the 32000-byte
 * screen, restarts one byte further along, so a stride of 160 fills the screen
 * column by column. Escape sequences stand for runs.
 */
module CrackArt {
  import opened Results
  import opened Bits
  import opened Rle

  /** `outLength`: the screen in bytes. */
  const OutLength: nat := 32000

  // ---------------------------------------------------------------------------
  // writeByte

  /** The closure variables `nextPos`, `nextStart` and `remaining`. */
  datatype Cursor = Cursor(nextPos: int, nextStart: int, remaining: int)

  /** The cursor and the screen. */
  datatype Machine = Machine(cursor: Cursor, location: seq<byte>)

  /** The state before the first command: the screen filled with `initial`. */
  function Fresh(initial: byte): (m: Machine)
    ensures |m.location| == OutLength && m.cursor.remaining == OutLength
    ensures forall i :: 0 <= i < OutLength ==> m.location[i] == initial
  {
    Machine(Cursor(0, 0, OutLength), seq(OutLength, _ => initial))
  }

  /**
   * `writeByte(byte)`: store at `nextPos` (a Uint8Array drops a store outside
   * the screen), step by `offset`, and on reaching the end of the screen
   * restart at the next column start.
   */
  function WriteByte(offset: int, m: Machine, b: byte): (m': Machine)
    ensures |m'.location| == |m.location|
    ensures m'.cursor.remaining == m.cursor.remaining - 1
    ensures forall i :: 0 <= i < |m.location| ==> m'.location[i] == if i == m.cursor.nextPos then b else m.location[i]
    ensures m.cursor.nextPos + offset < OutLength ==>
              m'.cursor.nextPos == m.cursor.nextPos + offset && m'.cursor.nextStart == m.cursor.nextStart
    ensures m.cursor.nextPos + offset >= OutLength ==>
              m'.cursor.nextPos == m'.cursor.nextStart == m.cursor.nextStart + 1
  {
    var c := m.cursor;
    var location := if 0 <= c.nextPos < |m.location| then m.location[c.nextPos := b] else m.location;
    var p := c.nextPos + offset;
    if p >= OutLength then Machine(Cursor(c.nextStart + 1, c.nextStart + 1, c.remaining - 1), location)
    else Machine(Cursor(p, c.nextStart, c.remaining - 1), location)
  }

  /** `writeByte` for each byte of `s` in turn. */
  function WriteAll(offset: int, m: Machine, s: seq<byte>): (m': Machine)
    ensures |m'.location| == |m.location|
    ensures m'.cursor.remaining == m.cursor.remaining - |s|
    decreases |s|
  {
    if s == [] then m else WriteAll(offset, WriteByte(offset, m, s[0]), s[1..])
  }

  /** Writing `a + b` is writing `a`, then `b`. */
  lemma {:induction false} WriteAllAppend(offset: int, m: Machine, a: seq<byte>, b: seq<byte>)
    ensures WriteAll(offset, m, a + b) == WriteAll(offset, WriteAll(offset, m, a), b)
    decreases |a|
  {
    if a == [] {
      assert a + b == b;
    } else {
      assert (a + b)[0] == a[0] && (a + b)[1..] == a[1..] + b;
      WriteAllAppend(offset, WriteByte(offset, m, a[0]), a[1..], b);
    }
  }

  // ---------------------------------------------------------------------------
  // The column walk of a stride that divides the screen

  /** A stride that splits the screen into `OutLength / d` rows of d columns. */
  predicate Divides(d: int)
  {
    0 < d && OutLength % d == 0
  }

  /** Where the k-th byte lands: row k mod h of column k div h, with h rows. */
  function Pos(d: int, k: nat): (p: nat)
    requires Divides(d)
  {
    var h := OutLength / d;
    (k % h) * d + k / h
  }

  /** The inverse of `Pos`: which byte of the stream lands on screen byte p. */
  function Col(d: int, p: nat): (k: nat)
    requires Divides(d)
  {
    var h := OutLength / d;
    (p % d) * h + p / d
  }

  /** Multiplication by a natural keeps `<=`; a nonlinear step the row and column bounds need. */
  lemma MulLeq(a: nat, b: nat, d: nat)
    requires a <= b
    ensures a * d <= b * d
  {
  }

  /** The rows and columns multiply out to the screen. */
  lemma Rows(d: int) returns (h: nat)
    requires Divides(d)
    ensures h == OutLength / d && h * d == OutLength && h > 0
  {
    h := OutLength / d;
    DivModUnique(OutLength, d, h, 0);
  }

  /** Every byte of the stream lands on the screen, and `Col` finds it again. */
  lemma ColPos(d: int, k: nat)
    requires Divides(d) && k < OutLength
    ensures Pos(d, k) < OutLength && Col(d, Pos(d, k)) == k
  {
    var h, r, c := RowCol(d, k);
    MulLeq(r, h - 1, d);
    var p := r * d + c;
    assert p < OutLength;
    DivModUnique(p, d, r, c);
  }

  /** Every screen byte is the landing place of one byte of the stream. */
  lemma PosCol(d: int, p: nat)
    requires Divides(d) && p < OutLength
    ensures Col(d, p) < OutLength && Pos(d, Col(d, p)) == p
  {
    var h := Rows(d);
    var c, r := p % d, p / d;
    assert p == d * r + c;
    assert r < h by {
      if r >= h {
        MulLeq(h, r, d);
      }
    }
    MulLeq(c, d - 1, h);
    var k := c * h + r;
    assert k < OutLength;
    DivModUnique(k, h, c, r);
  }

  /** The cursor after k bytes from a fresh start. */
  function CursorAfter(d: int, k: nat): Cursor
    requires Divides(d)
  {
    Cursor(Pos(d, k), k / (OutLength / d), OutLength - k)
  }

  /** Row and column of byte k: the column is below the stride. */
  lemma RowCol(d: int, k: nat) returns (h: nat, r: nat, c: nat)
    requires Divides(d) && k < OutLength
    ensures h == OutLength / d && h * d == OutLength && r == k % h && c == k / h
    ensures k == h * c + r && r < h && c < d
  {
    h := Rows(d);
    r, c := k % h, k / h;
    assert c < d by {
      if c >= d {
        MulLeq(d, c, h);
      }
    }
  }

  /** One `writeByte` moves the cursor from byte k to byte k + 1. */
  lemma CursorStep(d: int, m: Machine, k: nat, b: byte)
    requires Divides(d) && k < OutLength && m.cursor == CursorAfter(d, k)
    ensures WriteByte(d, m, b).cursor == CursorAfter(d, k + 1)
  {
    var h, r, c := RowCol(d, k);
    if r < h - 1 {
      DownColumn(d, k, h, r, c);
    } else {
      NextColumn(d, k, h, r, c);
    }
  }

  /** Inside a column the cursor moves down one row. */
  lemma DownColumn(d: int, k: nat, h: nat, r: nat, c: nat)
    requires Divides(d) && h == OutLength / d && h * d == OutLength
    requires k == h * c + r && r < h - 1 && c < d
    ensures Pos(d, k) + d < OutLength && Pos(d, k + 1) == Pos(d, k) + d
    ensures (k + 1) / h == k / h
  {
    DivModUnique(k, h, c, r);
    DivModUnique(k + 1, h, c, r + 1);
    MulLeq(r + 1, h - 1, d);
    assert (r + 1) * d == r * d + d;
    assert (h - 1) * d == OutLength - d;
  }

  /** At the bottom of a column the cursor runs off the screen and restarts at the next column. */
  lemma NextColumn(d: int, k: nat, h: nat, r: nat, c: nat)
    requires Divides(d) && h == OutLength / d && h * d == OutLength
    requires k == h * c + r && r == h - 1 && c < d
    ensures Pos(d, k) + d >= OutLength && (k + 1) / h == k / h + 1 && Pos(d, k + 1) == k / h + 1
  {
    DivModUnique(k, h, c, r);
    DivModUnique(k + 1, h, c + 1, 0);
    assert r * d + d == OutLength;
  }

  /**
   * With a stride that divides the screen, writing `s` from the state after
   * k bytes puts byte i of `s` on screen byte `Pos(k + i)` and leaves every
   * other screen byte alone.
   */
  lemma {:induction false} WriteColumns(d: int, m: Machine, k: nat, s: seq<byte>, p: nat)
    requires Divides(d) && k + |s| <= OutLength && m.cursor == CursorAfter(d, k)
    requires |m.location| == OutLength && p < OutLength
    ensures WriteAll(d, m, s).cursor == CursorAfter(d, k + |s|)
    ensures WriteAll(d, m, s).location[p] == if k <= Col(d, p) < k + |s| then s[Col(d, p) - k] else m.location[p]
    decreases |s|
  {
    if s != [] {
      var m1 := WriteByte(d, m, s[0]);
      CursorStep(d, m, k, s[0]);
      WriteColumns(d, m1, k + 1, s[1..], p);
      PosCol(d, p);
      ColPos(d, k);
      assert m1.location[p] == if Col(d, p) == k then s[0] else m.location[p];
    }
  }

  // ---------------------------------------------------------------------------
  // Commands

  /**
   * How `escape, 1` reads its run length: as the source does, or as the
   * format intends.
   */
  datatype Reading = AsWritten | Intended

  /** What one command does: write `count` copies of `value`, or fill the rest of the screen. */
  datatype Command = Put(count: nat, value: byte) | FillRest

  /**
   * `escape, 1, ...`, with `q` the input position just after the 1: read the
   * run length with `readWord() + 1`, then the byte to repeat. As written,
   * `getUint16(inPos += 2)` moves `inPos` by two and then reads the word at
   * the NEW position, so the length comes from bytes q + 2 and q + 3 and the
   * fill byte is byte q + 2 again. The intended reading takes the length from
   * bytes q and q + 1 and the fill byte from q + 2. Both resume at q + 3.
   */
  function LongAt(reading: Reading, src: seq<byte>, q: nat): (r: Result<(Command, nat), JsError>)
    ensures r.Err? ==> r.error == RangeError
    ensures reading == AsWritten ==>
              if q + 4 > |src| then r.Err?
              else r == Ok((Put(Be16(src[q + 2], src[q + 3]) + 1, src[q + 2]), q + 3))
    ensures reading == Intended ==>
              if q + 3 > |src| then r.Err?
              else r == Ok((Put(Be16(src[q], src[q + 1]) + 1, src[q + 2]), q + 3))
  {
    match reading
    case AsWritten =>
      if q + 4 > |src| then Err(RangeError)
      else Ok((Put(Be16(src[q + 2], src[q + 3]) + 1, src[q + 2]), q + 3))
    case Intended =>
      if q + 3 > |src| then Err(RangeError)
      else Ok((Put(Be16(src[q], src[q + 1]) + 1, src[q + 2]), q + 3))
  }

  /**
   * The command whose first byte is at `pos`, and where the next command
   * starts. A byte other than the escape is written as it is; after an escape,
   * the escape again writes the escape byte, 0 is a short run, 1 a long run, 2
   * a run of the fill byte (or, followed by 0, the rest of the screen), and any
   * other k a run of k + 1. `getUint8` past the end of the input throws.
   */
  function CommandAt(reading: Reading, src: seq<byte>, pos: nat, escape: byte, initial: byte): (r: Result<(Command, nat), JsError>)
    ensures r.Err? ==> r.error == RangeError
    ensures r.Ok? ==> pos < r.value.1 <= |src|
    ensures r.Ok? && r.value.0.Put? ==> r.value.0.count >= 1
    ensures pos < |src| && src[pos] != escape ==> r == Ok((Put(1, src[pos]), pos + 1))
  {
    if pos >= |src| then Err(RangeError)
    else if src[pos] != escape then Ok((Put(1, src[pos]), pos + 1))
    else if pos + 1 >= |src| then Err(RangeError)
    else
      var code := src[pos + 1];
      var q := pos + 2;
      if code == escape then Ok((Put(1, code), q))
      else if code == 0 then
        if q + 2 > |src| then Err(RangeError) else Ok((Put(src[q] as nat + 1, src[q + 1]), q + 2))
      else if code == 1 then
        LongAt(reading, src, q)
      else if code == 2 then
        if q >= |src| then Err(RangeError)
        else if src[q] == 0 then Ok((FillRest, q + 1))
        else if q + 1 >= |src| then Err(RangeError)
        else Ok((Put(src[q] as nat * 256 + src[q + 1] + 1, initial), q + 2))
      else
        if q >= |src| then Err(RangeError) else Ok((Put(code as nat + 1, src[q]), q + 1))
  }

  // ---------------------------------------------------------------------------
  // The decompression loop

  /**
   * How a decompression ends: with the screen, with an exception, or never.
   * `remaining` only counts down, so a run that overshoots the screen makes
   * it negative and `while (remaining)` keeps going: the input then runs out
   * and `getUint8` throws, or an `escape, 2, 0` loops for ever.
   */
  datatype Outcome = Output(screen: seq<byte>) | Throws(error: JsError) | Hangs

  /** The `while (remaining)` loop from input position `pos`. */
  function Loop(reading: Reading, src: seq<byte>, pos: nat, escape: byte, initial: byte, offset: int, m: Machine): (r: Outcome)
    ensures r.Output? ==> |r.screen| == |m.location|
    ensures r.Throws? ==> r.error == RangeError
    ensures m.cursor.remaining == 0 ==> r == Output(m.location)
    decreases |src| - pos
  {
    if m.cursor.remaining == 0 then Output(m.location)
    else
      match CommandAt(reading, src, pos, escape, initial)
      case Err(e) => Throws(e)
      case Ok((c, next)) =>
        match c
        case Put(n, b) => Loop(reading, src, next, escape, initial, offset, WriteAll(offset, m, Run(n, b)))
        case FillRest =>
          if m.cursor.remaining < 0 then Hangs
          else Loop(reading, src, next, escape, initial, offset, WriteAll(offset, m, Run(m.cursor.remaining, initial)))
  }

  /** `getInt16`: a big-endian word read as two's complement. */
  function Int16(hi: byte, lo: byte): (v: int)
    ensures -32768 <= v < 32768
    ensures 0 <= v ==> v == Be16(hi, lo)
  {
    if Be16(hi, lo) >= 32768 then Be16(hi, lo) - 65536 else Be16(hi, lo)
  }

  /**
   * `decompress(buffer)`: the header's escape byte, fill byte and signed
   * stride, then the loop from byte 4 on a screen filled with the fill byte.
   */
  function Decompress(reading: Reading, src: seq<byte>): (r: Outcome)
    ensures r.Output? ==> |r.screen| == OutLength
    ensures r.Throws? ==> r.error == RangeError
    ensures |src| < 4 ==> r == Throws(RangeError)
  {
    if |src| < 4 then Throws(RangeError)
    else Loop(reading, src, 4, src[0], src[1], Int16(src[2], src[3]), Fresh(src[1]))
  }

  // ---------------------------------------------------------------------------
  // The compressor, the decompressor's partner

  /** One command as the compressor can write it. */
  datatype Code =
    | Plain(value: byte)
    | Doubled
    | Short(count: nat, value: byte)
    | Long(count: nat, value: byte)
    | Blank(count: nat)
    | Small(count: nat, value: byte)

  /**
   * The codes a reading decodes as meant: a plain byte that is not the escape,
   * and runs whose selector byte is not taken by the escape. The long run is
   * meant only under the intended reading.
   */
  predicate Encodable(reading: Reading, escape: byte, c: Code)
  {
    match c
    case Plain(b) => b != escape
    case Doubled => true
    case Short(n, _) => escape != 0 && 1 <= n <= 256
    case Long(n, _) => reading == Intended && escape != 1 && 1 <= n <= 65536
    case Blank(n) => escape != 2 && 257 <= n <= 65536
    case Small(n, _) => 4 <= n <= 256 && n - 1 != escape
  }

  predicate AllEncodable(reading: Reading, escape: byte, cs: seq<Code>)
  {
    forall i :: 0 <= i < |cs| ==> Encodable(reading, escape, cs[i])
  }

  function CodeBytes(reading: Reading, escape: byte, c: Code): (bs: seq<byte>)
    requires Encodable(reading, escape, c)
    ensures |bs| >= 1
  {
    match c
    case Plain(b) => [b]
    case Doubled => [escape, escape]
    case Short(n, b) => [escape, 0, n - 1, b]
    case Long(n, b) => [escape, 1] + Be16Bytes(n - 1) + [b]
    case Blank(n) => [escape, 2] + Be16Bytes(n - 1)
    case Small(n, b) => [escape, n - 1, b]
  }

  /** The command a code stands for. */
  function CodeCommand(escape: byte, initial: byte, c: Code): (cmd: Command)
    ensures cmd.Put?
  {
    match c
    case Plain(b) => Put(1, b)
    case Doubled => Put(1, escape)
    case Short(n, b) => Put(n, b)
    case Long(n, b) => Put(n, b)
    case Blank(n) => Put(n, initial)
    case Small(n, b) => Put(n, b)
  }

  function Encode(reading: Reading, escape: byte, cs: seq<Code>): seq<byte>
    requires AllEncodable(reading, escape, cs)
  {
    if cs == [] then [] else CodeBytes(reading, escape, cs[0]) + Encode(reading, escape, cs[1..])
  }

  /** The bytes the codes put on the screen, in writing order. */
  function Bytes(escape: byte, initial: byte, cs: seq<Code>): seq<byte>
  {
    if cs == [] then []
    else
      var cmd := CodeCommand(escape, initial, cs[0]);
      Run(cmd.count, cmd.value) + Bytes(escape, initial, cs[1..])
  }

  /** One code decodes to its command, whatever follows it. */
  lemma DecodeStep(reading: Reading, src: seq<byte>, pos: nat, escape: byte, initial: byte, c: Code)
    requires Encodable(reading, escape, c)
    requires pos + |CodeBytes(reading, escape, c)| <= |src|
    requires src[pos .. pos + |CodeBytes(reading, escape, c)|] == CodeBytes(reading, escape, c)
    ensures CommandAt(reading, src, pos, escape, initial)
            == Ok((CodeCommand(escape, initial, c), pos + |CodeBytes(reading, escape, c)|))
  {
    var e := CodeBytes(reading, escape, c);
    assert src[pos] == e[0];
    match c
    case Plain(b) =>
    case Doubled =>
      assert src[pos + 1] == e[1];
    case Short(n, b) =>
      assert src[pos + 1] == e[1] && src[pos + 2] == e[2] && src[pos + 3] == e[3];
    case Long(n, b) =>
      assert src[pos + 1] == e[1] && src[pos + 2] == e[2] && src[pos + 3] == e[3] && src[pos + 4] == e[4];
      assert Be16(src[pos + 2], src[pos + 3]) == n - 1;
    case Blank(n) =>
      assert src[pos + 1] == e[1] && src[pos + 2] == e[2] && src[pos + 3] == e[3];
      assert Be16(src[pos + 2], src[pos + 3]) == n - 1;
      assert src[pos + 2] != 0;
    case Small(n, b) =>
      assert src[pos + 1] == e[1] && src[pos + 2] == e[2];
  }

  /** Decoding a code, then going on with the loop. */
  lemma DecodeStepOn(reading: Reading, src: seq<byte>, pos: nat, escape: byte, initial: byte,
                     offset: int, m: Machine, c: Code, next: nat, m1: Machine)
    requires Encodable(reading, escape, c)
    requires next == pos + |CodeBytes(reading, escape, c)| <= |src|
    requires src[pos .. next] == CodeBytes(reading, escape, c)
    requires m.cursor.remaining != 0
    requires m1 == WriteAll(offset, m, Run(CodeCommand(escape, initial, c).count, CodeCommand(escape, initial, c).value))
    ensures Loop(reading, src, pos, escape, initial, offset, m) == Loop(reading, src, next, escape, initial, offset, m1)
  {
    DecodeStep(reading, src, pos, escape, initial, c);
  }

  /**
   * An encoded code stream that writes exactly the bytes the screen still
   * expects leaves the loop with those bytes written; whatever follows the
   * stream is never read.
   */
  lemma {:induction false} DecodeCodes(reading: Reading, src: seq<byte>, pos: nat, escape: byte, initial: byte,
                                       offset: int, m: Machine, cs: seq<Code>)
    requires AllEncodable(reading, escape, cs)
    requires pos + |Encode(reading, escape, cs)| <= |src|
    requires src[pos .. pos + |Encode(reading, escape, cs)|] == Encode(reading, escape, cs)
    requires m.cursor.remaining == |Bytes(escape, initial, cs)|
    ensures Loop(reading, src, pos, escape, initial, offset, m)
            == Output(WriteAll(offset, m, Bytes(escape, initial, cs)).location)
    decreases |cs|
  {
    if cs != [] {
      var next, m1 := SplitCodes(reading, src, pos, escape, initial, offset, m, cs);
      DecodeCodes(reading, src, next, escape, initial, offset, m1, cs[1..]);
    }
  }

  /** The first code of a stream decodes on its own, leaving the rest of the stream and of the expected bytes. */
  lemma SplitCodes(reading: Reading, src: seq<byte>, pos: nat, escape: byte, initial: byte,
                   offset: int, m: Machine, cs: seq<Code>) returns (next: nat, m1: Machine)
    requires |cs| > 0 && AllEncodable(reading, escape, cs)
    requires pos + |Encode(reading, escape, cs)| <= |src|
    requires src[pos .. pos + |Encode(reading, escape, cs)|] == Encode(reading, escape, cs)
    requires m.cursor.remaining == |Bytes(escape, initial, cs)|
    ensures AllEncodable(reading, escape, cs[1..])
    ensures next + |Encode(reading, escape, cs[1..])| <= |src|
    ensures src[next .. next + |Encode(reading, escape, cs[1..])|] == Encode(reading, escape, cs[1..])
    ensures m1.cursor.remaining == |Bytes(escape, initial, cs[1..])|
    ensures Loop(reading, src, pos, escape, initial, offset, m) == Loop(reading, src, next, escape, initial, offset, m1)
    ensures WriteAll(offset, m, Bytes(escape, initial, cs)) == WriteAll(offset, m1, Bytes(escape, initial, cs[1..]))
  {
    next := SplitEncoded(reading, src, pos, escape, cs);
    m1 := SplitBytes(reading, escape, initial, offset, m, cs);
    DecodeStepOn(reading, src, pos, escape, initial, offset, m, cs[0], next, m1);
  }

  /** `Encode` one code off the front: the first code's bytes from `pos`, the rest's from `next`. */
  lemma SplitEncoded(reading: Reading, src: seq<byte>, pos: nat, escape: byte, cs: seq<Code>) returns (next: nat)
    requires |cs| > 0 && AllEncodable(reading, escape, cs)
    requires pos + |Encode(reading, escape, cs)| <= |src|
    requires src[pos .. pos + |Encode(reading, escape, cs)|] == Encode(reading, escape, cs)
    ensures AllEncodable(reading, escape, cs[1..])
    ensures next == pos + |CodeBytes(reading, escape, cs[0])| && src[pos .. next] == CodeBytes(reading, escape, cs[0])
    ensures next + |Encode(reading, escape, cs[1..])| <= |src|
    ensures src[next .. next + |Encode(reading, escape, cs[1..])|] == Encode(reading, escape, cs[1..])
  {
    EncodeCons(reading, escape, cs);
    next := pos + |CodeBytes(reading, escape, cs[0])|;
    SplitAt(src, pos, CodeBytes(reading, escape, cs[0]), Encode(reading, escape, cs[1..]), next);
  }

  /** `Encode` one code off the front. */
  lemma EncodeCons(reading: Reading, escape: byte, cs: seq<Code>)
    requires |cs| > 0 && AllEncodable(reading, escape, cs)
    ensures Encodable(reading, escape, cs[0]) && AllEncodable(reading, escape, cs[1..])
    ensures Encode(reading, escape, cs) == CodeBytes(reading, escape, cs[0]) + Encode(reading, escape, cs[1..])
  {
    assert Encodable(reading, escape, cs[0]);
  }

  /** `Bytes` one code off the front: writing them is writing the first code's run, then the rest. */
  lemma SplitBytes(reading: Reading, escape: byte, initial: byte, offset: int, m: Machine, cs: seq<Code>) returns (m1: Machine)
    requires |cs| > 0 && AllEncodable(reading, escape, cs)
    ensures var cmd := CodeCommand(escape, initial, cs[0]);
            cmd.count >= 1 && m1 == WriteAll(offset, m, Run(cmd.count, cmd.value))
    ensures |Bytes(escape, initial, cs)| == |Bytes(escape, initial, cs[1..])| + m.cursor.remaining - m1.cursor.remaining
    ensures WriteAll(offset, m, Bytes(escape, initial, cs)) == WriteAll(offset, m1, Bytes(escape, initial, cs[1..]))
  {
    assert Encodable(reading, escape, cs[0]);
    var cmd := CodeCommand(escape, initial, cs[0]);
    m1 := WriteAll(offset, m, Run(cmd.count, cmd.value));
    assert Bytes(escape, initial, cs) == Run(cmd.count, cmd.value) + Bytes(escape, initial, cs[1..]);
    WriteAllAppend(offset, m, Run(cmd.count, cmd.value), Bytes(escape, initial, cs[1..]));
  }

  /** `escape, 2, 0` with bytes still expected fills them all with the fill byte and ends the loop. */
  lemma FillRestStep(reading: Reading, src: seq<byte>, pos: nat, escape: byte, initial: byte, offset: int, m: Machine)
    requires escape != 2 && pos + 3 <= |src| && src[pos .. pos + 3] == [escape, 2, 0]
    requires m.cursor.remaining > 0
    ensures Loop(reading, src, pos, escape, initial, offset, m)
            == Output(WriteAll(offset, m, Run(m.cursor.remaining, initial)).location)
  {
    assert src[pos] == escape && src[pos + 1] == 2 && src[pos + 2] == 0;
    assert CommandAt(reading, src, pos, escape, initial) == Ok((FillRest, pos + 3));
  }

  /** After a run that overshot the screen, `escape, 2, 0` never ends. */
  lemma FillRestHangs(reading: Reading, src: seq<byte>, pos: nat, escape: byte, initial: byte, offset: int, m: Machine)
    requires escape != 2 && pos + 3 <= |src| && src[pos .. pos + 3] == [escape, 2, 0]
    requires m.cursor.remaining < 0
    ensures Loop(reading, src, pos, escape, initial, offset, m) == Hangs
  {
    assert src[pos] == escape && src[pos + 1] == 2 && src[pos + 2] == 0;
    assert CommandAt(reading, src, pos, escape, initial) == Ok((FillRest, pos + 3));
  }

  // ---------------------------------------------------------------------------
  // Round trip for a stride that divides the screen

  /** Screen byte `Pos(d, k)`, the k-th byte the cursor visits. */
  function Visited(d: int, image: seq<byte>, k: nat): byte
    requires Divides(d) && |image| == OutLength && k < OutLength
  {
    ColPos(d, k);
    image[Pos(d, k)]
  }

  /** The screen in the order the cursor visits it. */
  function Gather(d: int, image: seq<byte>): (s: seq<byte>)
    requires Divides(d) && |image| == OutLength
    ensures |s| == OutLength
    ensures forall k :: 0 <= k < OutLength ==> s[k] == Visited(d, image, k)
  {
    seq(OutLength, k requires 0 <= k < OutLength => Visited(d, image, k))
  }

  /** The header: escape byte, fill byte and the stride as a big-endian word. */
  function Header(escape: byte, initial: byte, d: int): (bs: seq<byte>)
    requires Divides(d)
    ensures |bs| == 4 && bs[0] == escape && bs[1] == initial && Int16(bs[2], bs[3]) == d
  {
    [escape, initial] + Be16Bytes(d)
  }

  /** Writing the gathered screen from a fresh start puts every byte back. */
  lemma ScreenFromColumns(d: int, image: seq<byte>, initial: byte)
    requires Divides(d) && |image| == OutLength
    ensures WriteAll(d, Fresh(initial), Gather(d, image)).location == image
  {
    var m := Fresh(initial);
    var s := Gather(d, image);
    var out := WriteAll(d, m, s).location;
    assert m.cursor == CursorAfter(d, 0);
    forall p | 0 <= p < OutLength
      ensures out[p] == image[p]
    {
      WriteColumns(d, m, 0, s, p);
      PosCol(d, p);
    }
  }

  /**
   * The decompressor inverts the compressor: a header with a stride that
   * divides the screen, followed by codes that write the screen in the
   * cursor's order, decompresses to the screen, whatever follows the codes.
   */
  lemma RoundTrip(reading: Reading, escape: byte, initial: byte, d: int, image: seq<byte>, cs: seq<Code>, rest: seq<byte>)
    requires Divides(d) && |image| == OutLength
    requires AllEncodable(reading, escape, cs) && Bytes(escape, initial, cs) == Gather(d, image)
    ensures Decompress(reading, Header(escape, initial, d) + Encode(reading, escape, cs) + rest) == Output(image)
  {
    var enc := Encode(reading, escape, cs);
    var src := Header(escape, initial, d) + enc + rest;
    assert src[4 .. 4 + |enc|] == enc;
    assert src[0] == escape && src[1] == initial && Int16(src[2], src[3]) == d;
    DecodeCodes(reading, src, 4, escape, initial, d, Fresh(initial), cs);
    ScreenFromColumns(d, image, initial);
  }

  /** Every byte as a one-byte code: the escape byte doubled, any other byte as it is. */
  function Literals(escape: byte, s: seq<byte>): (cs: seq<Code>)
    ensures |cs| == |s|
    ensures forall i :: 0 <= i < |cs| ==> cs[i] == if s[i] == escape then Doubled else Plain(s[i])
    ensures forall reading :: AllEncodable(reading, escape, cs)
  {
    if s == [] then []
    else
      var cs := [if s[0] == escape then Doubled else Plain(s[0])] + Literals(escape, s[1..]);
      assert forall i :: 1 <= i < |cs| ==> cs[i] == Literals(escape, s[1..])[i - 1];
      cs
  }

  /** The literal codes write exactly their bytes. */
  lemma {:induction false} LiteralBytes(escape: byte, initial: byte, s: seq<byte>)
    ensures Bytes(escape, initial, Literals(escape, s)) == s
    decreases |s|
  {
    if s != [] {
      var cs := Literals(escape, s);
      assert cs[1..] == Literals(escape, s[1..]);
      LiteralBytes(escape, initial, s[1..]);
      assert Run(1, s[0]) == [s[0]];
    }
  }

  /** Any screen compresses, byte by byte, to a stream that decompresses to it under either reading. */
  lemma LiteralRoundTrip(reading: Reading, escape: byte, initial: byte, d: int, image: seq<byte>)
    requires Divides(d) && |image| == OutLength
    ensures var cs := Literals(escape, Gather(d, image));
            Decompress(reading, Header(escape, initial, d) + Encode(reading, escape, cs)) == Output(image)
  {
    var cs := Literals(escape, Gather(d, image));
    LiteralBytes(escape, initial, Gather(d, image));
    RoundTrip(reading, escape, initial, d, image, cs, []);
    assert Header(escape, initial, d) + Encode(reading, escape, cs) + [] == Header(escape, initial, d) + Encode(reading, escape, cs);
  }

  // ---------------------------------------------------------------------------
  // The long run, as written

  /**
   * As written, a long run `escape, 1, hi, lo, b` followed by byte x repeats b
   * `Be16(b, x) + 1` times instead of `Be16(hi, lo) + 1` times, and decoding
   * resumes at x, which is read as the next command.
   */
  lemma LongAsWritten(src: seq<byte>, pos: nat, escape: byte, initial: byte, n: nat, b: byte, x: byte)
    requires escape != 1 && 1 <= n <= 65536
    requires pos + 6 <= |src| && src[pos .. pos + 6] == [escape, 1] + Be16Bytes(n - 1) + [b, x]
    ensures CommandAt(AsWritten, src, pos, escape, initial) == Ok((Put(Be16(b, x) + 1, b), pos + 5))
    ensures CommandAt(Intended, src, pos, escape, initial) == Ok((Put(n, b), pos + 5))
  {
    var e := [escape, 1] + Be16Bytes(n - 1) + [b, x];
    assert src[pos] == e[0] && src[pos + 1] == e[1] && src[pos + 2] == e[2] && src[pos + 3] == e[3];
    assert src[pos + 4] == e[4] && src[pos + 5] == e[5];
  }

  /** Six copies of 0x77, `AA 01 00 05 77`, followed by 0x10: as written, 30481 copies. */
  lemma LongExample()
    ensures CommandAt(AsWritten, [0xAA, 0x01, 0x00, 0x05, 0x77, 0x10], 0, 0xAA, 0) == Ok((Put(30481, 0x77), 5))
    ensures CommandAt(Intended, [0xAA, 0x01, 0x00, 0x05, 0x77, 0x10], 0, 0xAA, 0) == Ok((Put(6, 0x77), 5))
  {
    LongAsWritten([0xAA, 0x01, 0x00, 0x05, 0x77, 0x10], 0, 0xAA, 0, 6, 0x77, 0x10);
  }

  /** A long run that ends the input throws as written: the word is read past the end. */
  lemma LongAtEnd(escape: byte, initial: byte, n: nat, b: byte)
    requires escape != 1 && 1 <= n <= 65536
    ensures var src := [escape, 1] + Be16Bytes(n - 1) + [b];
            && CommandAt(AsWritten, src, 0, escape, initial) == Err(RangeError)
            && CommandAt(Intended, src, 0, escape, initial) == Ok((Put(n, b), 5))
  {
    var src := [escape, 1] + Be16Bytes(n - 1) + [b];
    assert src[0] == escape && src[1] == 1;
  }
}
