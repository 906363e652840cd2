/**
 * Laws about sequences of reads and writes of the bitplane engine: what a
 * series of `write` calls leaves in a zeroed buffer, and when reading it back
 * with the same layout returns the indices that were written.
 */
module BitplaneLaws {
  import opened Bits
  import opened Bitplane

  /** The buffer after a fresh writer has written `colors` in order. */
  ghost function WriteAll(buf: seq<byte>, l: Layout, colors: seq<nat>): (r: seq<byte>)
    ensures |r| == |buf|
    decreases |colors|
  {
    if |colors| == 0 then buf
    else
      var n := |colors| - 1;
      var c := CursorAfter(l, n);
      CursorBitInRange(l, n);
      Stamp(WriteAll(buf, l, colors[..n]), l, Base(l, c), c.bit, colors[n], l.planes)
  }

  predicate Zeroed(buf: seq<byte>)
  {
    forall i :: 0 <= i < |buf| ==> buf[i] == 0
  }

  /** Some written pixel n has plane k at byte j, bit b, with bit k of its index set. */
  ghost predicate Written(l: Layout, colors: seq<nat>, j: nat, b: nat)
  {
    exists n, k :: 0 <= n < |colors| && 0 <= k < l.planes
      && Address(l, n, k) == j && CursorAfter(l, n).bit + b == 7 && Bit(colors[n], k) == 1
  }

  lemma {:induction false} BitOfZero(b: nat)
    ensures Bit(0, b) == 0
  {
    if b > 0 {
      BitOfZero(b - 1);
    }
  }

  /** Writers only ever set bits: a bit of a zeroed buffer is set exactly when some write targeted it. */
  lemma {:induction false} WriteAllBits(buf: seq<byte>, l: Layout, colors: seq<nat>, j: nat, b: nat)
    requires Zeroed(buf) && j < |buf| && b < 8
    ensures Bit(WriteAll(buf, l, colors)[j], b) == if Written(l, colors, j, b) then 1 else 0
    decreases |colors|
  {
    if |colors| == 0 {
      BitOfZero(b);
    } else {
      var n := |colors| - 1;
      var c := CursorAfter(l, n);
      CursorBitInRange(l, n);
      var prev := WriteAll(buf, l, colors[..n]);
      assert WriteAll(buf, l, colors)[j] == Stamp(prev, l, Base(l, c), c.bit, colors[n], l.planes)[j];
      WriteAllBits(buf, l, colors[..n], j, b);
      if Hit(l, Base(l, c), colors[n], l.planes, j) {
        SetBitBit(prev[j], 7 - c.bit, b);
      }
      WrittenLast(l, colors, j, b);
    }
  }

  /** A bit is written by `colors` exactly when the earlier pixels wrote it or the last pixel's planes hit it. */
  lemma WrittenLast(l: Layout, colors: seq<nat>, j: nat, b: nat)
    requires |colors| > 0
    ensures var n := |colors| - 1;
            Written(l, colors, j, b) <==>
            Written(l, colors[..n], j, b) ||
            (Hit(l, Base(l, CursorAfter(l, n)), colors[n], l.planes, j) && b + CursorAfter(l, n).bit == 7)
  {
    var n := |colors| - 1;
    var prefix := colors[..n];
    var pos := Base(l, CursorAfter(l, n));
    if Hit(l, pos, colors[n], l.planes, j) && b + CursorAfter(l, n).bit == 7 {
      var k :| 0 <= k < l.planes && k < l.planes && Bit(colors[n], k) == 1 && pos + k * l.planeStep == j;
      assert Address(l, n, k) == j;
      assert Written(l, colors, j, b);
    }
    if Written(l, prefix, j, b) {
      var n', k' :| 0 <= n' < |prefix| && 0 <= k' < l.planes
        && Address(l, n', k') == j && CursorAfter(l, n').bit + b == 7 && Bit(prefix[n'], k') == 1;
      assert colors[n'] == prefix[n'];
      assert Written(l, colors, j, b);
    }
    if Written(l, colors, j, b) {
      var n', k' :| 0 <= n' < |colors| && 0 <= k' < l.planes
        && Address(l, n', k') == j && CursorAfter(l, n').bit + b == 7 && Bit(colors[n'], k') == 1;
      if n' == n {
        assert Hit(l, pos, colors[n], l.planes, j);
      } else {
        assert prefix[n'] == colors[n'];
        assert Written(l, prefix, j, b);
      }
    }
  }

  /** No two (pixel, plane) pairs below `count` share a byte and bit position. */
  ghost predicate SlotsDisjoint(l: Layout, count: nat)
  {
    forall n1, k1, n2, k2 ::
      0 <= n1 < count && 0 <= n2 < count && 0 <= k1 < l.planes && 0 <= k2 < l.planes
      && Address(l, n1, k1) == Address(l, n2, k2) && CursorAfter(l, n1).bit == CursorAfter(l, n2).bit
      ==> n1 == n2 && k1 == k2
  }

  /** Every (pixel, plane) pair below `count` addresses a byte inside a buffer of `size` bytes. */
  ghost predicate SlotsWithin(l: Layout, count: nat, size: nat)
  {
    forall n, k :: 0 <= n < count && 0 <= k < l.planes ==> Address(l, n, k) < size
  }

  /**
   * Reader and writer are inverse: after writing `colors` into a zeroed buffer,
   * the n-th read with the same layout returns `colors[n] mod 2^planes`,
   * provided no two pixels share a bit and every address is inside the buffer.
   */
  lemma RoundTrip(buf: seq<byte>, l: Layout, colors: seq<nat>, n: nat)
    requires Zeroed(buf)
    requires SlotsDisjoint(l, |colors|) && SlotsWithin(l, |colors|, |buf|)
    requires n < |colors|
    ensures NthPixel(WriteAll(buf, l, colors), l, n) == colors[n] % Pow2(l.planes)
  {
    var out := WriteAll(buf, l, colors);
    var c := CursorAfter(l, n);
    CursorBitInRange(l, n);
    var bits := PlaneBits(out, l, Base(l, c), c.bit);
    forall k | 0 <= k < l.planes
      ensures bits[k] == Bit(colors[n], k)
    {
      PlaneBitBack(buf, l, colors, n, k);
    }
    assert bits == LowBits(colors[n], l.planes);
    AssembleLowBits(colors[n], l.planes);
  }

  /** Plane `k` of pixel `n` holds, after all the writes, the bit the writer put there. */
  lemma PlaneBitBack(buf: seq<byte>, l: Layout, colors: seq<nat>, n: nat, k: nat)
    requires Zeroed(buf)
    requires SlotsDisjoint(l, |colors|) && SlotsWithin(l, |colors|, |buf|)
    requires n < |colors| && k < l.planes
    ensures CursorAfter(l, n).bit < 8
    ensures PlaneBits(WriteAll(buf, l, colors), l, Base(l, CursorAfter(l, n)), CursorAfter(l, n).bit)[k] == Bit(colors[n], k)
  {
    CursorBitInRange(l, n);
    var c := CursorAfter(l, n);
    var j := Address(l, n, k);
    assert PlaneBits(WriteAll(buf, l, colors), l, Base(l, c), c.bit)[k] == Bit(ByteAt(WriteAll(buf, l, colors), j), 7 - c.bit);
    assert j < |buf|;
    WriteAllBits(buf, l, colors, j, 7 - c.bit);
    if Bit(colors[n], k) == 1 {
      assert Written(l, colors, j, 7 - c.bit);
    }
    if Written(l, colors, j, 7 - c.bit) {
      var n', k' :| 0 <= n' < |colors| && 0 <= k' < l.planes
        && Address(l, n', k') == j && CursorAfter(l, n').bit + (7 - c.bit) == 7 && Bit(colors[n'], k') == 1;
      assert n' == n && k' == k;
    }
  }
}
