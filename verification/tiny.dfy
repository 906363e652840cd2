/**
 * The Tiny Stuff decompressor. A control stream of signed bytes says, command
 * by command, how many words to take from the data stream and whether to copy
 * them one by one or to repeat a single word; the words are scattered over a
 * 16000-word screen in column order, so consecutive words go down a column of
 * word-interleaved bitplanes rather than along a scanline.
 */
module Tiny {
  import opened Results
  import opened Bits

  /** `(width / 8) * height * planes / 2`: the screen in words, 32000 bytes for every resolution. */
  const ScreenWords: nat := 16000

  // ---------------------------------------------------------------------------
  // The column scatter

  /**
   * The screen word that the `count`-th decoded word lands on: the screen is
   * cut into 20 strips of four columns, and each column is 200 words deep.
   */
  function Offset(count: nat): (o: nat)
    ensures count < ScreenWords ==> o < ScreenWords
  {
    ((count % 4000) / 200) * 4 + count / 4000 + 80 * (count % 200)
  }

  /** The inverse of `Offset`: which decoded word lands on screen word `o`. */
  function CountAt(o: nat): (c: nat)
    ensures o < ScreenWords ==> c < ScreenWords
  {
    4000 * (o % 4) + 200 * ((o % 80) / 4) + o / 80
  }

  /** `CountAt` undoes `Offset` on the screen. */
  lemma CountAtOffset(c: nat)
    requires c < ScreenWords
    ensures CountAt(Offset(c)) == c
  {
    var q, m := c / 4000, c % 4000;
    var a, r := m / 200, m % 200;
    assert c % 200 == r by {
      DivModUnique(c, 200, 20 * q + a, r);
    }
    var o := Offset(c);
    assert o == 80 * r + (4 * a + q);
    DivModUnique(o, 80, r, 4 * a + q);
    DivModUnique(4 * a + q, 4, a, q);
    DivModUnique(o, 4, 20 * r + a, q);
  }

  /** `Offset` undoes `CountAt` on the screen. */
  lemma OffsetCountAt(o: nat)
    requires o < ScreenWords
    ensures Offset(CountAt(o)) == o
  {
    var q, a, r := o % 4, (o % 80) / 4, o / 80;
    assert q == (o % 80) % 4 by {
      DivModUnique(o, 4, 20 * r + a, (o % 80) % 4);
    }
    var c := CountAt(o);
    DivModUnique(c, 4000, q, 200 * a + r);
    DivModUnique(200 * a + r, 200, a, r);
    DivModUnique(c, 200, 20 * q + a, r);
  }

  /**
   * For counts below 16000 the scatter is a bijection onto the screen: no two
   * decoded words share a screen word, and every screen word receives one.
   */
  lemma OffsetBijective(c1: nat, c2: nat, o: nat)
    requires c1 < ScreenWords && c2 < ScreenWords && o < ScreenWords
    ensures Offset(c1) == Offset(c2) <==> c1 == c2
    ensures CountAt(o) < ScreenWords && Offset(CountAt(o)) == o
  {
    CountAtOffset(c1);
    CountAtOffset(c2);
    OffsetCountAt(o);
  }

  // ---------------------------------------------------------------------------
  // Control bytes

  /** One control command: copy or repeat, how many words, and where the next command starts. */
  datatype Command = Command(copy: bool, count: nat, next: nat)

  /**
   * The command whose control byte x sits at `pos`. x < 0 and x = 1 copy,
   * x = 0 and x > 1 repeat; x < 0 and x > 1 carry the count |x| themselves,
   * x = 0 and x = 1 are followed by a big-endian count word.
   */
  function CommandAt(control: seq<byte>, pos: nat): (r: Result<Command, JsError>)
    requires pos < |control|
    ensures r.Err? ==> r.error == RangeError
    ensures var x := Int8(control[pos]);
            && (r.Ok? ==> (r.value.copy <==> x < 0 || x == 1))
            && (x < 0 || x > 1 ==> r == Ok(Command(x < 0, if x < 0 then -x else x, pos + 1)))
            && (0 <= x <= 1 ==> (r.Err? <==> pos + 3 > |control|))
            && (0 <= x <= 1 && r.Ok? ==>
                  r.value.count == Be16(control[pos + 1], control[pos + 2]) && r.value.next == pos + 3)
  {
    var x := Int8(control[pos]);
    var copy := x < 0 || x == 1;
    if x < 0 || x > 1 then Ok(Command(copy, if x < 0 then -x else x, pos + 1))
    else if pos + 3 > |control| then Err(RangeError)
    else Ok(Command(copy, Be16(control[pos + 1], control[pos + 2]), pos + 3))
  }

  // ---------------------------------------------------------------------------
  // The decompression loop

  /** The loop variables `dataPos` and `count`, and the output buffer. */
  datatype State = State(dataPos: nat, count: nat, out: seq<byte>)

  /**
   * One pass of the `for` body: `setUint16(offset * 2, getUint16(dataPos * 2))`
   * copies the two bytes of data word `dataPos` onto the screen word of
   * `count`, and either DataView throws RangeError past its end. `dataPos`
   * moves on only when copying.
   */
  function Step(data: seq<byte>, copy: bool, st: State): (r: Result<State, JsError>)
    ensures r.Err? ==> r.error == RangeError
    ensures r.Err? <==> 2 * st.dataPos + 2 > |data| || 2 * Offset(st.count) + 2 > |st.out|
    ensures r.Ok? ==> && r.value.count == st.count + 1
                      && r.value.dataPos == st.dataPos + (if copy then 1 else 0)
                      && |r.value.out| == |st.out|
                      && r.value.out[2 * Offset(st.count)] == data[2 * st.dataPos]
                      && r.value.out[2 * Offset(st.count) + 1] == data[2 * st.dataPos + 1]
                      && forall j :: 0 <= j < |st.out| && j != 2 * Offset(st.count) && j != 2 * Offset(st.count) + 1
                           ==> r.value.out[j] == st.out[j]
  {
    var o := Offset(st.count);
    if 2 * st.dataPos + 2 > |data| || 2 * o + 2 > |st.out| then Err(RangeError)
    else Ok(State(if copy then st.dataPos + 1 else st.dataPos, st.count + 1,
                  st.out[2 * o := data[2 * st.dataPos]][2 * o + 1 := data[2 * st.dataPos + 1]]))
  }

  /** The inner `for` loop: `n` words written at successive counts. */
  function Fill(data: seq<byte>, copy: bool, n: nat, st: State): (r: Result<State, JsError>)
    ensures r.Err? ==> r.error == RangeError
    ensures r.Ok? ==> && r.value.count == st.count + n
                      && r.value.dataPos == st.dataPos + (if copy then n else 0)
                      && |r.value.out| == |st.out|
    decreases n
  {
    if n == 0 then Ok(st)
    else
      match Step(data, copy, st)
      case Err(e) => Err(e)
      case Ok(st1) => Fill(data, copy, n - 1, st1)
  }

  /** One command: the words, then one step of `dataPos` after a repeat. */
  function Apply(data: seq<byte>, c: Command, st: State): (r: Result<State, JsError>)
    ensures r.Err? ==> r.error == RangeError
    ensures r.Ok? ==> && r.value.count == st.count + c.count
                      && r.value.dataPos == st.dataPos + (if c.copy then c.count else 1)
                      && |r.value.out| == |st.out|
  {
    var st' :- Fill(data, c.copy, c.count, st);
    Ok(if c.copy then st' else st'.(dataPos := st'.dataPos + 1))
  }

  /** The `while (controlPos < controlBytes.byteLength)` loop. */
  function DecompressFrom(control: seq<byte>, data: seq<byte>, pos: nat, st: State): (r: Result<seq<byte>, JsError>)
    ensures r.Err? ==> r.error == RangeError
    ensures r.Ok? ==> |r.value| == |st.out|
    decreases |control| - pos
  {
    if pos >= |control| then Ok(st.out)
    else
      var c :- CommandAt(control, pos);
      var st' :- Apply(data, c, st);
      DecompressFrom(control, data, c.next, st')
  }

  /**
   * The decompressor over the control bytes, the data words and the output
   * buffer. The source writes into the buffer in place; a RangeError
   * leaves it partly written, which the model does not keep.
   */
  function Decompress(control: seq<byte>, data: seq<byte>, out: seq<byte>): (r: Result<seq<byte>, JsError>)
    ensures r.Err? ==> r.error == RangeError
    ensures r.Ok? ==> |r.value| == |out|
  {
    DecompressFrom(control, data, 0, State(0, 0, out))
  }

  // ---------------------------------------------------------------------------
  // What a run of words puts on the screen

  /** Where the word for screen word `o` comes from, during a fill that began at `st`. */
  function Source(copy: bool, st: State, o: nat): int
  {
    st.dataPos + (if copy then CountAt(o) - st.count else 0)
  }

  /** Data enough for `n` words from `dataPos`. */
  predicate Enough(data: seq<byte>, copy: bool, n: nat, dataPos: nat)
  {
    n == 0 || 2 * (dataPos + (if copy then n else 1)) <= |data|
  }

  /** The first word of a fill, and the fill of the rest that follows it. */
  lemma FillStep(data: seq<byte>, copy: bool, n: nat, st: State) returns (out1: seq<byte>, st1: State)
    requires n > 0 && st.count < ScreenWords && |st.out| >= 2 * ScreenWords && 2 * st.dataPos + 2 <= |data|
    ensures Step(data, copy, st) == Ok(st1) && out1 == st1.out
    ensures Fill(data, copy, n, st) == Fill(data, copy, n - 1, st1)
  {
    st1 := Step(data, copy, st).value;
    out1 := st1.out;
  }

  /** A fill that stays on the screen, with data enough for it, succeeds. */
  lemma {:induction false} FillOk(data: seq<byte>, copy: bool, n: nat, st: State)
    requires st.count + n <= ScreenWords && |st.out| >= 2 * ScreenWords
    requires Enough(data, copy, n, st.dataPos)
    ensures Fill(data, copy, n, st).Ok?
    decreases n
  {
    if n > 0 {
      var out1, st1 := FillStep(data, copy, n, st);
      FillOk(data, copy, n - 1, st1);
    }
  }

  /**
   * After a fill that stays on the screen, byte h of screen word o holds the
   * matching data byte when the word's count falls in the run, and is as it
   * was otherwise.
   */
  lemma {:induction false} FillAt(data: seq<byte>, copy: bool, n: nat, st: State, o: nat, h: nat)
    requires st.count + n <= ScreenWords && |st.out| >= 2 * ScreenWords
    requires Enough(data, copy, n, st.dataPos) && o < ScreenWords && h < 2
    ensures Fill(data, copy, n, st).Ok?
    ensures Fill(data, copy, n, st).value.out[2 * o + h]
            == if st.count <= CountAt(o) < st.count + n then data[2 * Source(copy, st, o) + h] else st.out[2 * o + h]
    decreases n
  {
    FillOk(data, copy, n, st);
    if n > 0 {
      var out1, st1 := FillStep(data, copy, n, st);
      FillAt(data, copy, n - 1, st1, o, h);
      FillWord(data, copy, st, out1, o, h);
      var after := Fill(data, copy, n - 1, st1).value.out[2 * o + h];
      if CountAt(o) == st.count {
        assert after == data[2 * Source(copy, st, o) + h];
      } else if st.count < CountAt(o) < st.count + n {
        assert Source(copy, st1, o) == Source(copy, st, o);
      } else {
        assert after == st.out[2 * o + h];
      }
    }
  }

  /** A fill leaves the bytes past the screen alone. */
  lemma {:induction false} FillBeyond(data: seq<byte>, copy: bool, n: nat, st: State, j: nat)
    requires st.count + n <= ScreenWords && |st.out| >= 2 * ScreenWords
    requires Enough(data, copy, n, st.dataPos) && 2 * ScreenWords <= j < |st.out|
    ensures Fill(data, copy, n, st).Ok?
    ensures Fill(data, copy, n, st).value.out[j] == st.out[j]
    decreases n
  {
    FillOk(data, copy, n, st);
    if n > 0 {
      var out1, st1 := FillStep(data, copy, n, st);
      FillBeyond(data, copy, n - 1, st1, j);
    }
  }

  /** Byte h of screen word o after the first word of a fill. */
  lemma FillWord(data: seq<byte>, copy: bool, st: State, out1: seq<byte>, o: nat, h: nat)
    requires st.count < ScreenWords && |st.out| >= 2 * ScreenWords && 2 * st.dataPos + 2 <= |data|
    requires Step(data, copy, st).Ok? && out1 == Step(data, copy, st).value.out
    requires o < ScreenWords && h < 2
    ensures CountAt(o) == st.count ==> out1[2 * o + h] == data[2 * st.dataPos + h]
    ensures CountAt(o) != st.count ==> out1[2 * o + h] == st.out[2 * o + h]
  {
    var o0 := Offset(st.count);
    CountAtOffset(st.count);
    OffsetCountAt(o);
    assert CountAt(o) == st.count <==> o == o0;
    if o == o0 {
      if h == 0 {
        assert out1[2 * o0] == data[2 * st.dataPos];
      } else {
        assert out1[2 * o0 + 1] == data[2 * st.dataPos + 1];
      }
    } else {
      assert 2 * o + h != 2 * o0 && 2 * o + h != 2 * o0 + 1;
    }
  }

  // ---------------------------------------------------------------------------
  // The decompressor's partner

  /** The first k words of the screen in decoding order: data word c is screen word `Offset(c)`. */
  function GatherWords(screen: seq<byte>, k: nat): (data: seq<byte>)
    requires |screen| == 2 * ScreenWords && k <= ScreenWords
    ensures |data| == 2 * k
  {
    if k == 0 then []
    else
      var o := Offset(k - 1);
      GatherWords(screen, k - 1) + [screen[2 * o], screen[2 * o + 1]]
  }

  /** The whole screen in decoding order. */
  function Gather(screen: seq<byte>): (data: seq<byte>)
    requires |screen| == 2 * ScreenWords
    ensures |data| == 2 * ScreenWords
  {
    GatherWords(screen, ScreenWords)
  }

  /** Byte h of gathered word k is byte h of screen word `Offset(k)`. */
  lemma {:induction false} GatherWordsAt(screen: seq<byte>, m: nat, k: nat, h: nat)
    requires |screen| == 2 * ScreenWords && k < m <= ScreenWords && h < 2
    ensures GatherWords(screen, m)[2 * k + h] == screen[2 * Offset(k) + h]
    decreases m
  {
    var prev := GatherWords(screen, m - 1);
    var o := Offset(m - 1);
    assert GatherWords(screen, m) == prev + [screen[2 * o], screen[2 * o + 1]];
    if k < m - 1 {
      GatherWordsAt(screen, m - 1, k, h);
      assert GatherWords(screen, m)[2 * k + h] == prev[2 * k + h];
    }
  }

  /** A single copy command for the whole screen: control byte 1 and the count word 16000. */
  const CopyAll: seq<byte> := [0x01, 0x3E, 0x80]

  /** `CopyAll` is one fill of the whole screen. */
  lemma DecompressCopyAll(data: seq<byte>, out: seq<byte>)
    requires |data| >= 2 * ScreenWords && |out| >= 2 * ScreenWords
    ensures Fill(data, true, ScreenWords, State(0, 0, out)).Ok?
    ensures Decompress(CopyAll, data, out) == Ok(Fill(data, true, ScreenWords, State(0, 0, out)).value.out)
  {
    var st := State(0, 0, out);
    assert CommandAt(CopyAll, 0) == Ok(Command(true, ScreenWords, 3));
    FillOk(data, true, ScreenWords, st);
  }

  /** Byte h of gathered word k is byte h of screen word `Offset(k)`. */
  lemma GatherAt(screen: seq<byte>, k: nat, h: nat)
    requires |screen| == 2 * ScreenWords && k < ScreenWords && h < 2
    ensures Gather(screen)[2 * k + h] == screen[2 * Offset(k) + h]
  {
    GatherWordsAt(screen, ScreenWords, k, h);
  }

  /** Byte h of screen word o after a fill whose data word `CountAt(o)` holds that screen word. */
  lemma RebuildsAt(screen: seq<byte>, data: seq<byte>, n: nat, st: State, r: State, o: nat, h: nat)
    requires |st.out| == 2 * ScreenWords && n <= ScreenWords && 2 * n <= |data|
    requires st.count == 0 && st.dataPos == 0 && o < ScreenWords && CountAt(o) < n && h < 2
    requires Fill(data, true, n, st) == Ok(r)
    requires |screen| == 2 * ScreenWords && data[2 * CountAt(o) + h] == screen[2 * o + h]
    ensures r.out[2 * o + h] == screen[2 * o + h]
  {
    FillAt(data, true, n, st, o, h);
    assert Source(true, st, o) == CountAt(o);
  }

  /** A fill of all the gathered words of `screen`, from the start of the buffer, that ended in `r`. */
  predicate Setup(screen: seq<byte>, data: seq<byte>, n: nat, st: State, r: State)
  {
    && |screen| == 2 * ScreenWords && |st.out| == 2 * ScreenWords && n == ScreenWords
    && data == GatherWords(screen, n) && st.count == 0 && st.dataPos == 0
    && Fill(data, true, n, st) == Ok(r)
  }

  /** `RebuildsAt` for byte j of the screen. */
  lemma RebuildsByte(screen: seq<byte>, data: seq<byte>, n: nat, st: State, r: State, j: nat)
    requires Setup(screen, data, n, st, r) && j < |screen|
    ensures |r.out| == |screen| && r.out[j] == screen[j]
  {
    var o, h := WordOf(j);
    GatheredWord(screen, n, o, h);
    RebuildsAt(screen, data, n, st, r, o, h);
  }

  /** Byte j of the screen is byte h of screen word o. */
  lemma WordOf(j: nat) returns (o: nat, h: nat)
    requires j < 2 * ScreenWords
    ensures j == 2 * o + h && h < 2 && o < ScreenWords && CountAt(o) < ScreenWords
  {
    o, h := j / 2, j % 2;
  }

  /** Screen word o sits at data word `CountAt(o)` of the gathered words. */
  lemma GatheredWord(screen: seq<byte>, n: nat, o: nat, h: nat)
    requires |screen| == 2 * ScreenWords && n == ScreenWords && o < ScreenWords && h < 2
    ensures CountAt(o) < n && GatherWords(screen, n)[2 * CountAt(o) + h] == screen[2 * o + h]
  {
    OffsetCountAt(o);
    GatherWordsAt(screen, n, CountAt(o), h);
  }

  /**
   * The fill of the gathered words from the start of the screen rebuilds the
   * screen. The fill's start and length are parameters so that the proof
   * reasons about the fill in general rather than unrolling it.
   */
  lemma Rebuilds(screen: seq<byte>, data: seq<byte>, n: nat, st: State, r: State)
    requires Setup(screen, data, n, st, r)
    ensures r.out == screen
  {
    RebuildsByte(screen, data, n, st, r, 0);
    forall j | 0 <= j < |screen|
      ensures r.out[j] == screen[j]
    {
      RebuildsByte(screen, data, n, st, r, j);
    }
  }

  /**
   * Copying the gathered words with one command puts every word back where it
   * came from: whatever the output buffer held, the decompressor rebuilds the
   * screen.
   */
  lemma RoundTrip(screen: seq<byte>, out: seq<byte>)
    requires |screen| == 2 * ScreenWords && |out| == 2 * ScreenWords
    ensures Decompress(CopyAll, Gather(screen), out) == Ok(screen)
  {
    var data := Gather(screen);
    DecompressCopyAll(data, out);
    var st := State(0, 0, out);
    Rebuilds(screen, data, ScreenWords, st, Fill(data, true, ScreenWords, st).value);
  }
}
