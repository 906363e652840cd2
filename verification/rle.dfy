/**
 * The run-length vocabulary shared by the PackBits, Spectrum 512 and
 * smooshed Spectrum 512 image decompressors: a compressed stream is a
 * sequence of tokens, each a run of one repeated byte, a block of literal
 * bytes, or nothing.
 */
module Rle {
  import opened Bits

  datatype Token = Repeat(count: nat, value: byte) | Literal(bytes: seq<byte>) | NoOp

  /** `n` copies of `v`. */
  function Run(n: nat, v: byte): (bs: seq<byte>)
    ensures |bs| == n && forall i :: 0 <= i < n ==> bs[i] == v
  {
    if n == 0 then [] else [v] + Run(n - 1, v)
  }

  function TokenBytes(t: Token): (bs: seq<byte>)
    ensures t.Repeat? ==> bs == Run(t.count, t.value)
    ensures t.Literal? ==> bs == t.bytes
    ensures t.NoOp? ==> bs == []
  {
    match t
    case Repeat(n, v) => Run(n, v)
    case Literal(bs) => bs
    case NoOp => []
  }

  /** The bytes a token sequence stands for. */
  function Expand(ts: seq<Token>): seq<byte>
  {
    if |ts| == 0 then [] else TokenBytes(ts[0]) + Expand(ts[1..])
  }

  lemma {:induction false} ExpandAppend(ts: seq<Token>, us: seq<Token>)
    ensures Expand(ts + us) == Expand(ts) + Expand(us)
  {
    if |ts| > 0 {
      assert (ts + us)[0] == ts[0];
      assert (ts + us)[1..] == ts[1..] + us;
      ExpandAppend(ts[1..], us);
      assert Expand(ts + us) == TokenBytes(ts[0]) + Expand(ts[1..] + us);
    } else {
      assert ts + us == us;
    }
  }

  /** A slice that holds `a + b` holds `a` and then `b`. */
  lemma SliceSplit(src: seq<byte>, pos: nat, a: seq<byte>, b: seq<byte>)
    requires pos + |a + b| <= |src| && src[pos .. pos + |a + b|] == a + b
    ensures src[pos .. pos + |a|] == a && src[pos + |a| .. pos + |a| + |b|] == b
  {
    assert src[pos .. pos + |a|] == (a + b)[..|a|];
    assert src[pos + |a| .. pos + |a| + |b|] == (a + b)[|a|..];
  }

  /** A slice holding `a + b` holds `a` up to `next` and `b` from there. */
  lemma SplitAt(src: seq<byte>, pos: nat, a: seq<byte>, b: seq<byte>, next: nat)
    requires pos + |a + b| <= |src| && src[pos .. pos + |a + b|] == a + b && next == pos + |a|
    ensures src[pos .. next] == a && src[next .. next + |b|] == b
  {
    SliceSplit(src, pos, a, b);
  }

  /** A suffix holding `a + b` holds `a` up to `next` and ends with `b`. */
  lemma SplitRest(src: seq<byte>, pos: nat, a: seq<byte>, b: seq<byte>, next: nat)
    requires |src| == pos + |a| + |b| && src[pos..] == a + b && next == pos + |a|
    ensures src[pos .. next] == a && src[next..] == b
  {
    assert src[pos .. next] == (a + b)[..|a|];
    assert src[next..] == (a + b)[|a|..];
  }

  /** A slice that holds `a` followed by `b` holds `a + b`. */
  lemma SliceJoin(src: seq<byte>, pos: nat, a: seq<byte>, b: seq<byte>)
    requires pos + |a| + |b| <= |src|
    requires src[pos .. pos + |a|] == a && src[pos + |a| .. pos + |a| + |b|] == b
    ensures src[pos .. pos + |a + b|] == a + b
  {
    assert src[pos .. pos + |a + b|] == src[pos .. pos + |a|] + src[pos + |a| .. pos + |a| + |b|];
  }
}
