/**
 * The byte-oriented run-length scheme shared by the Spectrum 512 compressed
 * (SPC) and smooshed (SPS) image decompressors. A header byte says either
 * "repeat the next byte n times" or "copy the next n bytes"; the two formats
 * differ only in how the header byte encodes that choice. The loop runs while
 * at least two source bytes remain, so a lone trailing byte is never read.
 */
module SpectrumRle {
  import opened Results
  import opened Bits
  import opened Rle

  /** Which decompressor: compressed.js (SPC) or smooshed.js (SPS). */
  datatype Scheme = Spc | Sps

  /** What a header byte asks for. */
  datatype Header = RunOf(count: nat) | CopyOf(count: nat)

  /**
   * SPC reads the header with `getInt8`: h < 0 repeats -h + 2 times, h >= 0
   * copies h + 1 bytes. SPS reads it with `getUint8`: h <= 127 repeats h + 3
   * times, h > 127 copies h - 128 + 1 bytes.
   */
  function HeaderOf(s: Scheme, b: byte): (h: Header)
    ensures h.RunOf? ==> 3 <= h.count <= 130
    ensures h.CopyOf? ==> 1 <= h.count <= 128
  {
    match s
    case Spc => if Int8(b) < 0 then RunOf(-Int8(b) + 2) else CopyOf(Int8(b) + 1)
    case Sps => if b <= 127 then RunOf(b + 3) else CopyOf(b - 128 + 1)
  }

  /**
   * The bytes the decompressor produces from source position `pos` on, before
   * they are placed in the fixed-size output. A literal that runs past the end
   * of the source makes `getUint8` throw RangeError.
   */
  function Stream(s: Scheme, src: seq<byte>, pos: nat): (r: Result<seq<byte>, JsError>)
    requires pos <= |src|
    ensures r.Err? ==> r.error == RangeError
    decreases |src| - pos
  {
    if pos + 1 >= |src| then Ok([])
    else
      match HeaderOf(s, src[pos])
      case RunOf(n) =>
        Prepend(Run(n, src[pos + 1]), Stream(s, src, pos + 2))
      case CopyOf(n) =>
        if pos + 1 + n > |src| then Err(RangeError)
        else Prepend(src[pos + 1 .. pos + 1 + n], Stream(s, src, pos + 1 + n))
  }

  /** `bs` in front of a successful result; a failure stays a failure. */
  function Prepend(bs: seq<byte>, r: Result<seq<byte>, JsError>): (r': Result<seq<byte>, JsError>)
    ensures r'.Ok? <==> r.Ok?
    ensures r.Err? ==> r' == r
    ensures r.Ok? ==> r'.value == bs + r.value
  {
    if r.Ok? then Ok(bs + r.value) else r
  }

  // ---------------------------------------------------------------------------
  // Encoding, the decompressor's partner

  /** Tokens a single header can express: runs of 3 to 130 bytes, literals of 1 to 128 bytes. */
  predicate Encodable(t: Token)
  {
    match t
    case Repeat(n, _) => 3 <= n <= 130
    case Literal(bs) => 1 <= |bs| <= 128
    case NoOp => false
  }

  predicate AllEncodable(ts: seq<Token>)
  {
    forall i :: 0 <= i < |ts| ==> Encodable(ts[i])
  }

  function EncodeToken(s: Scheme, t: Token): (bs: seq<byte>)
    requires Encodable(t)
    ensures |bs| >= 2
  {
    match t
    case Repeat(n, v) => [if s.Spc? then 258 - n else n - 3, v]
    case Literal(bs) => [if s.Spc? then |bs| - 1 else 127 + |bs|] + bs
  }

  function Encode(s: Scheme, ts: seq<Token>): (bs: seq<byte>)
    requires AllEncodable(ts)
  {
    if |ts| == 0 then [] else EncodeToken(s, ts[0]) + Encode(s, ts[1..])
  }

  /** The header of an encoded token asks for exactly that token. */
  lemma HeaderOfEncoded(s: Scheme, t: Token)
    requires Encodable(t)
    ensures var e := EncodeToken(s, t);
            HeaderOf(s, e[0]) == if t.Repeat? then RunOf(t.count) else CopyOf(|t.bytes|)
  {
  }

  /** One token decodes from its encoding, and decoding goes on just after it. */
  lemma DecodeStep(s: Scheme, src: seq<byte>, pos: nat, t: Token)
    requires Encodable(t)
    requires pos + |EncodeToken(s, t)| <= |src| && src[pos .. pos + |EncodeToken(s, t)|] == EncodeToken(s, t)
    ensures Stream(s, src, pos) == Prepend(TokenBytes(t), Stream(s, src, pos + |EncodeToken(s, t)|))
  {
    var e := EncodeToken(s, t);
    assert src[pos] == e[0];
    HeaderOfEncoded(s, t);
    match t
    case Repeat(n, v) =>
      assert src[pos + 1] == e[1];
    case Literal(bs) =>
      assert src[pos + 1 .. pos + 1 + |bs|] == e[1..];
  }

  /** `Encode` one token off the front. */
  lemma Unfold(s: Scheme, ts: seq<Token>)
    requires |ts| > 0 && AllEncodable(ts)
    ensures Encodable(ts[0]) && AllEncodable(ts[1..])
    ensures Encode(s, ts) == EncodeToken(s, ts[0]) + Encode(s, ts[1..])
    ensures Expand(ts) == TokenBytes(ts[0]) + Expand(ts[1..])
  {
    assert Encodable(ts[0]);
  }

  /** An encoded token stream followed by at most one stray byte decodes to its expansion. */
  lemma {:induction false} DecodeTokens(s: Scheme, src: seq<byte>, pos: nat, ts: seq<Token>)
    requires AllEncodable(ts)
    requires pos + |Encode(s, ts)| <= |src| <= pos + |Encode(s, ts)| + 1
    requires src[pos .. pos + |Encode(s, ts)|] == Encode(s, ts)
    ensures Stream(s, src, pos) == Ok(Expand(ts))
    decreases |ts|
  {
    if |ts| > 0 {
      var next := Split(s, src, pos, ts);
      DecodeTokens(s, src, next, ts[1..]);
    }
  }

  /** An encoded stream at `pos`: its first token decodes, and the rest's encoding starts at `next`. */
  lemma Split(s: Scheme, src: seq<byte>, pos: nat, ts: seq<Token>) returns (next: nat)
    requires AllEncodable(ts) && |ts| > 0
    requires pos + |Encode(s, ts)| <= |src| <= pos + |Encode(s, ts)| + 1
    requires src[pos .. pos + |Encode(s, ts)|] == Encode(s, ts)
    ensures AllEncodable(ts[1..])
    ensures next + |Encode(s, ts[1..])| <= |src| <= next + |Encode(s, ts[1..])| + 1
    ensures src[next .. next + |Encode(s, ts[1..])|] == Encode(s, ts[1..])
    ensures Expand(ts) == TokenBytes(ts[0]) + Expand(ts[1..])
    ensures Stream(s, src, pos) == Prepend(TokenBytes(ts[0]), Stream(s, src, next))
  {
    next := SplitEncoded(s, src, pos, ts);
    DecodeStep(s, src, pos, ts[0]);
  }

  /** `Encode` one token off the front: the first token's bytes from `pos`, the rest's from `next`. */
  lemma SplitEncoded(s: Scheme, src: seq<byte>, pos: nat, ts: seq<Token>) returns (next: nat)
    requires AllEncodable(ts) && |ts| > 0
    requires pos + |Encode(s, ts)| <= |src| <= pos + |Encode(s, ts)| + 1
    requires src[pos .. pos + |Encode(s, ts)|] == Encode(s, ts)
    ensures Encodable(ts[0]) && AllEncodable(ts[1..])
    ensures next == pos + |EncodeToken(s, ts[0])| <= |src| && src[pos .. next] == EncodeToken(s, ts[0])
    ensures next + |Encode(s, ts[1..])| <= |src| <= next + |Encode(s, ts[1..])| + 1
    ensures src[next .. next + |Encode(s, ts[1..])|] == Encode(s, ts[1..])
  {
    Unfold(s, ts);
    next := pos + |EncodeToken(s, ts[0])|;
    SplitAt(src, pos, EncodeToken(s, ts[0]), Encode(s, ts[1..]), next);
  }

  /**
   * The decompressor inverts the encoder: the image bytes come back, and a
   * single byte after the stream (which the `byteLength - 1` bound skips) is
   * ignored.
   */
  lemma RoundTrip(s: Scheme, ts: seq<Token>, rest: seq<byte>)
    requires AllEncodable(ts) && |rest| <= 1
    ensures Stream(s, Encode(s, ts) + rest, 0) == Ok(Expand(ts))
  {
    var src := Encode(s, ts) + rest;
    assert src[0 .. |Encode(s, ts)|] == Encode(s, ts);
    DecodeTokens(s, src, 0, ts);
  }

  /** The token whose header sits at `pos`, when the stream decodes from there. */
  lemma NextToken(s: Scheme, src: seq<byte>, pos: nat) returns (t: Token, e: seq<byte>)
    requires pos + 1 < |src| && Stream(s, src, pos).Ok?
    ensures Encodable(t) && e == EncodeToken(s, t)
    ensures pos + |e| <= |src| && src[pos .. pos + |e|] == e
  {
    HeaderInverse(s, src[pos]);
    match HeaderOf(s, src[pos])
    case RunOf(n) =>
      t := Repeat(n, src[pos + 1]);
      e := [src[pos], src[pos + 1]];
      assert src[pos .. pos + 2] == e;
    case CopyOf(n) =>
      assert pos + 1 + n <= |src|;
      var bs := src[pos + 1 .. pos + 1 + n];
      t := Literal(bs);
      e := [src[pos]] + bs;
      assert src[pos .. pos + 1 + n] == e;
  }

  /** A header byte is the encoding of the header it decodes to. */
  lemma HeaderInverse(s: Scheme, b: byte)
    ensures var h := HeaderOf(s, b);
            (h.RunOf? ==> b as int == if s.Spc? then 258 - h.count else h.count - 3) &&
            (h.CopyOf? ==> b as int == if s.Spc? then h.count - 1 else 127 + h.count)
  {
  }

  /**
   * Conversely, every successful decode is the expansion of an encodable
   * token stream that covers the source but for at most one byte.
   */
  lemma {:induction false} Parse(s: Scheme, src: seq<byte>, pos: nat) returns (ts: seq<Token>)
    requires pos <= |src| && Stream(s, src, pos).Ok?
    ensures AllEncodable(ts)
    ensures pos + |Encode(s, ts)| <= |src| <= pos + |Encode(s, ts)| + 1
    ensures src[pos .. pos + |Encode(s, ts)|] == Encode(s, ts)
    ensures Stream(s, src, pos).value == Expand(ts)
    decreases |src| - pos
  {
    if pos + 1 >= |src| {
      ts := [];
    } else {
      var t, e := NextToken(s, src, pos);
      DecodeStep(s, src, pos, t);
      var more := Parse(s, src, pos + |e|);
      ts := Cons(s, src, pos, t, more);
    }
  }

  /** A token in front of a parsed stream: the stream still encodes a prefix of the source. */
  lemma Cons(s: Scheme, src: seq<byte>, pos: nat, t: Token, more: seq<Token>) returns (ts: seq<Token>)
    requires Encodable(t) && AllEncodable(more)
    requires pos + |EncodeToken(s, t)| + |Encode(s, more)| <= |src|
    requires src[pos .. pos + |EncodeToken(s, t)|] == EncodeToken(s, t)
    requires src[pos + |EncodeToken(s, t)| .. pos + |EncodeToken(s, t)| + |Encode(s, more)|] == Encode(s, more)
    ensures ts == [t] + more && AllEncodable(ts)
    ensures |Encode(s, ts)| == |EncodeToken(s, t)| + |Encode(s, more)|
    ensures src[pos .. pos + |Encode(s, ts)|] == Encode(s, ts)
    ensures Expand(ts) == TokenBytes(t) + Expand(more)
  {
    ts := [t] + more;
    assert ts[0] == t && ts[1..] == more;
    assert AllEncodable(ts) by {
      forall i | 0 <= i < |ts|
        ensures Encodable(ts[i])
      {
        if i > 0 {
          assert ts[i] == more[i - 1];
        }
      }
    }
    assert Encode(s, ts) == EncodeToken(s, t) + Encode(s, more);
    assert Expand(ts) == TokenBytes(t) + Expand(more);
    SliceJoin(src, pos, EncodeToken(s, t), Encode(s, more));
  }
}
