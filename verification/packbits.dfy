/**
 * PackBits `depack(buffer, size)`: a signed header byte n selects a run of
 * 1 - n copies of the next byte (n < 0), 1 + n literal bytes (n >= 0), or
 * nothing (n = -128); decoding stops once `size` bytes are out.
 */
module PackBits {
  import opened Results
  import opened Bits
  import opened Rle

  /** What one pass of the loop body does: stop, throw, or consume some input and produce some output. */
  datatype Step = Done | Fail | Next(rest: seq<byte>, out: seq<byte>)

  /**
   * One pass over the unread input `src` with `out` decoded so far. Reading
   * past the end of the input and writing past `size` both throw RangeError.
   */
  function StepOn(src: seq<byte>, out: seq<byte>, size: nat): (s: Step)
    requires |out| <= size
    ensures s.Next? ==> |s.rest| < |src| && |s.out| <= size
    ensures s.Done? <==> |out| == size
  {
    if |out| == size then Done
    else if |src| == 0 then Fail
    else
      var h := Int8(src[0]);
      if h == -128 then Next(src[1..], out)
      else if h < 0 then
        if |src| < 2 || |out| + (1 - h) > size then Fail
        else Next(src[2..], out + Run(1 - h, src[1]))
      else
        if |src| < 2 + h || |out| + (1 + h) > size then Fail
        else Next(src[2 + h..], out + src[1 .. 2 + h])
  }

  /** The `while (destPos < size)` loop, over the input not yet read. */
  function DepackFrom(src: seq<byte>, out: seq<byte>, size: nat): (r: Result<seq<byte>, JsError>)
    requires |out| <= size
    ensures r.Ok? ==> |r.value| == size
    ensures r.Err? ==> r.error == RangeError
    decreases |src|
  {
    match StepOn(src, out, size)
    case Done => Ok(out)
    case Fail => Err(RangeError)
    case Next(rest, o) => DepackFrom(rest, o, size)
  }

  function Depack(src: seq<byte>, size: nat): (r: Result<seq<byte>, JsError>)
    ensures r.Ok? ==> |r.value| == size
    ensures r.Err? ==> r.error == RangeError
  {
    DepackFrom(src, [], size)
  }

  /** Tokens PackBits can express: runs of 2 to 128, literal blocks of 1 to 128. */
  predicate Encodable(t: Token)
  {
    match t
    case Repeat(n, _) => 2 <= n <= 128
    case Literal(bs) => 1 <= |bs| <= 128
    case NoOp => true
  }

  predicate AllEncodable(ts: seq<Token>)
  {
    forall i :: 0 <= i < |ts| ==> Encodable(ts[i])
  }

  function EncodeToken(t: Token): (bs: seq<byte>)
    requires Encodable(t)
    ensures |bs| >= 1
  {
    match t
    case Repeat(n, v) => [257 - n, v]
    case Literal(bs) => [|bs| - 1] + bs
    case NoOp => [128]
  }

  function Encode(ts: seq<Token>): seq<byte>
    requires AllEncodable(ts)
  {
    if |ts| == 0 then [] else EncodeToken(ts[0]) + Encode(ts[1..])
  }

  /** One token decodes from its encoding, whatever follows it. */
  lemma DecodeStep(t: Token, tail: seq<byte>, out: seq<byte>, size: nat)
    requires Encodable(t) && |out| < size && |out| + |TokenBytes(t)| <= size
    ensures StepOn(EncodeToken(t) + tail, out, size) == Next(tail, out + TokenBytes(t))
  {
    var src := EncodeToken(t) + tail;
    match t
    case Repeat(n, v) =>
      assert src[0] == 257 - n && src[1] == v && src[2..] == tail;
    case Literal(bs) =>
      assert src[0] == |bs| - 1 && src[1 .. 1 + |bs|] == bs && src[1 + |bs|..] == tail;
    case NoOp =>
      assert src[0] == 128 && src[1..] == tail;
      assert out + [] == out;
  }

  lemma Assoc(a: seq<byte>, b: seq<byte>, c: seq<byte>)
    ensures a + b + c == a + (b + c)
  {
  }

  /** `Encode` and `Expand` of a non-empty stream, one token off the front. */
  lemma Unfold(ts: seq<Token>)
    requires |ts| > 0 && AllEncodable(ts)
    ensures Encodable(ts[0]) && AllEncodable(ts[1..])
    ensures Encode(ts) == EncodeToken(ts[0]) + Encode(ts[1..])
    ensures Expand(ts) == TokenBytes(ts[0]) + Expand(ts[1..])
  {
  }

  /** An encoded token stream, followed by anything, decodes to the stream's expansion after `out`. */
  lemma {:induction false} DecodeTokens(ts: seq<Token>, rest: seq<byte>, out: seq<byte>, size: nat)
    requires AllEncodable(ts) && |out| + |Expand(ts)| == size
    ensures DepackFrom(Encode(ts) + rest, out, size) == Ok(out + Expand(ts))
    decreases |ts|
  {
    if |out| == size {
      assert out + Expand(ts) == out;
    } else {
      Unfold(ts);
      var t := ts[0];
      var tail := Encode(ts[1..]) + rest;
      Assoc(EncodeToken(t), Encode(ts[1..]), rest);
      DecodeStep(t, tail, out, size);
      DecodeTokens(ts[1..], rest, out + TokenBytes(t), size);
      Assoc(out, TokenBytes(t), Expand(ts[1..]));
    }
  }

  /**
   * Decoding an encoded token stream with `size` set to its expanded length
   * gives back exactly those bytes; anything after the stream is never read.
   */
  lemma RoundTrip(ts: seq<Token>, rest: seq<byte>)
    requires AllEncodable(ts)
    ensures Depack(Encode(ts) + rest, |Expand(ts)|) == Ok(Expand(ts))
  {
    DecodeTokens(ts, rest, [], |Expand(ts)|);
    assert [] + Expand(ts) == Expand(ts);
  }

  /** The token at the front of the unread input, when decoding goes on from there. */
  lemma NextToken(src: seq<byte>, out: seq<byte>, size: nat) returns (t: Token, tail: seq<byte>)
    requires |out| < size && DepackFrom(src, out, size).Ok?
    ensures Encodable(t) && src == EncodeToken(t) + tail
    ensures |out| + |TokenBytes(t)| <= size
  {
    var h := Int8(src[0]);
    if h == -128 {
      t, tail := NoOp, src[1..];
      assert src == [src[0]] + tail;
    } else if h < 0 {
      t, tail := Repeat(1 - h, src[1]), src[2..];
      assert src == [src[0], src[1]] + tail;
    } else {
      t, tail := Literal(src[1 .. 2 + h]), src[2 + h..];
      assert src == [src[0]] + src[1 .. 2 + h] + tail;
    }
  }

  /**
   * Conversely, every successful decode is the expansion of an encodable
   * token stream at the front of the input.
   */
  lemma {:induction false} ParseFrom(src: seq<byte>, out: seq<byte>, size: nat, r: seq<byte>) returns (ts: seq<Token>, rest: seq<byte>)
    requires |out| <= size && DepackFrom(src, out, size) == Ok(r)
    ensures AllEncodable(ts) && src == Encode(ts) + rest
    ensures r == out + Expand(ts)
    decreases |src|, 1
  {
    if |out| == size {
      ts, rest := [], src;
      assert out + [] == out;
    } else {
      ts, rest := ParseNext(src, out, size, r);
    }
  }

  /** `ParseFrom` while output is still due: one token, then the rest of the parse. */
  lemma {:induction false} ParseNext(src: seq<byte>, out: seq<byte>, size: nat, r: seq<byte>) returns (ts: seq<Token>, rest: seq<byte>)
    requires |out| < size && DepackFrom(src, out, size) == Ok(r)
    ensures AllEncodable(ts) && src == Encode(ts) + rest
    ensures r == out + Expand(ts)
    decreases |src|, 0
  {
    var t, tail := NextToken(src, out, size);
    DecodeStep(t, tail, out, size);
    assert StepOn(src, out, size) == Next(tail, out + TokenBytes(t));
    var more;
    more, rest := ParseFrom(tail, out + TokenBytes(t), size, r);
    ts := Cons(t, more);
    Assoc(EncodeToken(t), Encode(more), rest);
    Assoc(out, TokenBytes(t), Expand(more));
  }

  /** A token in front of a stream, for encoding and expansion alike. */
  lemma Cons(t: Token, more: seq<Token>) returns (ts: seq<Token>)
    requires Encodable(t) && AllEncodable(more)
    ensures ts == [t] + more && AllEncodable(ts)
    ensures Encode(ts) == EncodeToken(t) + Encode(more)
    ensures Expand(ts) == TokenBytes(t) + Expand(more)
  {
    ts := [t] + more;
    assert ts[0] == t && ts[1..] == more;
    Unfold(ts);
  }

  lemma Parse(src: seq<byte>, size: nat) returns (ts: seq<Token>, rest: seq<byte>)
    requires Depack(src, size).Ok?
    ensures AllEncodable(ts) && src == Encode(ts) + rest
    ensures Depack(src, size).value == Expand(ts)
  {
    ts, rest := ParseFrom(src, [], size, Depack(src, size).value);
    assert [] + Expand(ts) == Expand(ts);
  }

  /** A run and a literal: `FE AA 02 80 01 02` is three 0xAA bytes followed by 0x80 0x01 0x02. */
  lemma Example()
    ensures Depack([0xFE, 0xAA, 0x02, 0x80, 0x01, 0x02], 6) == Ok([0xAA, 0xAA, 0xAA, 0x80, 0x01, 0x02])
  {
    var ts := [Repeat(3, 0xAA), Literal([0x80, 0x01, 0x02])];
    assert Encode(ts[1..][1..]) == [] && Expand(ts[1..][1..]) == [];
    assert Encode(ts[1..]) == [0x02, 0x80, 0x01, 0x02];
    assert Expand(ts[1..]) == [0x80, 0x01, 0x02];
    assert Encode(ts) == [0xFE, 0xAA, 0x02, 0x80, 0x01, 0x02];
    assert Expand(ts) == [0xAA, 0xAA, 0xAA, 0x80, 0x01, 0x02];
    RoundTrip(ts, []);
    assert Encode(ts) + [] == Encode(ts);
  }

  /** A literal block: `02 11 22 33` is the three bytes 11 22 33. */
  lemma LiteralExample()
    ensures Depack([0x02, 0x11, 0x22, 0x33], 3) == Ok([0x11, 0x22, 0x33])
  {
    var ts := [Literal([0x11, 0x22, 0x33])];
    assert Encode(ts[1..]) == [] && Expand(ts[1..]) == [];
    assert Encode(ts) == [0x02, 0x11, 0x22, 0x33];
    assert Expand(ts) == [0x11, 0x22, 0x33];
    RoundTrip(ts, []);
    assert Encode(ts) + [] == Encode(ts);
  }

  /** A run: `FE 99` is three 0x99 bytes. */
  lemma RunExample()
    ensures Depack([0xFE, 0x99], 3) == Ok([0x99, 0x99, 0x99])
  {
    var ts := [Repeat(3, 0x99)];
    assert Encode(ts[1..]) == [] && Expand(ts[1..]) == [];
    assert Encode(ts) == [0xFE, 0x99];
    assert Expand(ts) == [0x99, 0x99, 0x99];
    RoundTrip(ts, []);
    assert Encode(ts) + [] == Encode(ts);
  }

  /** Asking for more bytes than the input holds throws. */
  lemma ShortInput()
    ensures Depack([0x00, 0x07], 2) == Err(RangeError)
  {
  }
}
