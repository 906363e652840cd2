/**
 * Bytes, bits and the fixed-width integer conversions of JavaScript that the
 * coders rely on. Bits are defined by repeated halving so that every fact
 * about them is a short induction.
 */
module Bits {

  /** An unsigned 8-bit value, the element type of a Uint8Array. */
  type byte = x: int | 0 <= x < 256

  function Pow2(n: nat): (r: nat)
    ensures r >= 1
  {
    if n == 0 then 1 else 2 * Pow2(n - 1)
  }

  /** Bit `i` of `x`; bit 0 is the least significant. */
  function Bit(x: nat, i: nat): (b: nat)
    ensures b < 2
  {
    if i == 0 then x % 2 else Bit(x / 2, i - 1)
  }

  /** `x >> n` for non-negative x, one halving at a time. */
  function Shr(x: nat, n: nat): nat
  {
    if n == 0 then x else Shr(x / 2, n - 1)
  }

  /** The source's `bit = color & 1; color >>= 1` loop reads bit n of the original color at step n. */
  lemma {:induction false} ShrStep(x: nat, n: nat)
    ensures Shr(x, n) % 2 == Bit(x, n)
    ensures Shr(x, n + 1) == Shr(x, n) / 2
    decreases n
  {
    if n > 0 {
      ShrStep(x / 2, n - 1);
    }
  }

  /** `x | (1 << i)`. */
  function SetBit(x: nat, i: nat): nat
  {
    if i == 0 then (if x % 2 == 1 then x else x + 1)
    else 2 * SetBit(x / 2, i - 1) + x % 2
  }

  /** The bit string `bs` (least significant first) read as a number: `Σ bs[k] << k`. */
  function Assemble(bs: seq<nat>): nat
  {
    if |bs| == 0 then 0 else bs[0] + 2 * Assemble(bs[1..])
  }

  /** The low `n` bits of `x`, least significant first. */
  function LowBits(x: nat, n: nat): (bs: seq<nat>)
    ensures |bs| == n
  {
    seq(n, k requires 0 <= k < n => Bit(x, k))
  }

  predicate IsBitString(bs: seq<nat>)
  {
    forall k :: 0 <= k < |bs| ==> bs[k] < 2
  }

  lemma {:induction false} SetBitBit(x: nat, i: nat, j: nat)
    ensures Bit(SetBit(x, i), j) == if j == i then 1 else Bit(x, j)
    decreases i
  {
    if i == 0 {
      if j > 0 {
        assert SetBit(x, i) / 2 == x / 2;
      }
    } else {
      var s := SetBit(x / 2, i - 1);
      assert SetBit(x, i) == 2 * s + x % 2;
      if j > 0 {
        assert SetBit(x, i) / 2 == s;
        SetBitBit(x / 2, i - 1, j - 1);
      }
    }
  }

  lemma {:induction false} SetBitIdempotent(x: nat, i: nat)
    ensures SetBit(SetBit(x, i), i) == SetBit(x, i)
    decreases i
  {
    if i > 0 {
      var s := SetBit(x / 2, i - 1);
      assert SetBit(x, i) / 2 == s;
      assert SetBit(x, i) % 2 == x % 2;
      SetBitIdempotent(x / 2, i - 1);
    }
  }

  /** Setting a bit below `n` keeps a value below `2^n`; in particular a byte stays a byte. */
  lemma {:induction false} SetBitBound(x: nat, i: nat, n: nat)
    requires x < Pow2(n) && i < n
    ensures SetBit(x, i) < Pow2(n)
    decreases i
  {
    var half := Pow2(n - 1);
    assert Pow2(n) == 2 * half;
    if i > 0 {
      assert x / 2 < half;
      SetBitBound(x / 2, i - 1, n - 1);
      assert SetBit(x, i) == 2 * SetBit(x / 2, i - 1) + x % 2;
    } else if x % 2 == 0 {
      assert x + 1 < 2 * half;
    }
  }

  lemma {:induction false} SetBitKeepsByte(x: byte, i: nat)
    requires i < 8
    ensures SetBit(x, i) < 256
  {
    assert Pow2(8) == 256;
    SetBitBound(x, i, 8);
  }

  /** Appending the next more significant bit adds `b << |bs|`; this is how the source accumulates `color |= bit << plane`. */
  lemma {:induction false} AssembleSnoc(bs: seq<nat>, b: nat)
    ensures Assemble(bs + [b]) == Assemble(bs) + b * Pow2(|bs|)
    decreases |bs|
  {
    if |bs| > 0 {
      assert (bs + [b])[1..] == bs[1..] + [b];
      AssembleSnoc(bs[1..], b);
    }
  }

  /** A bit string of length n denotes a number below 2^n whose bit k is bs[k]. */
  lemma {:induction false} AssembleBits(bs: seq<nat>, k: nat)
    requires IsBitString(bs)
    ensures Assemble(bs) < Pow2(|bs|)
    ensures k < |bs| ==> Bit(Assemble(bs), k) == bs[k]
    decreases |bs|
  {
    if |bs| > 0 {
      var rest := bs[1..];
      assert IsBitString(rest);
      AssembleBits(rest, if k > 0 then k - 1 else 0);
      var v := Assemble(bs);
      assert v == bs[0] + 2 * Assemble(rest);
      assert v / 2 == Assemble(rest);
      assert v % 2 == bs[0];
    }
  }

  /** Reading back the low n bits of x gives x modulo 2^n. */
  lemma {:induction false} AssembleLowBits(x: nat, n: nat)
    ensures Assemble(LowBits(x, n)) == x % Pow2(n)
    decreases n
  {
    if n > 0 {
      var bs := LowBits(x, n);
      assert bs[1..] == LowBits(x / 2, n - 1) by {
        forall k | 0 <= k < n - 1
          ensures bs[1..][k] == Bit(x / 2, k)
        {
          assert bs[1..][k] == Bit(x, k + 1);
        }
      }
      AssembleLowBits(x / 2, n - 1);
      var m := Pow2(n - 1);
      assert Assemble(bs) == x % 2 + 2 * ((x / 2) % m);
      ModOfDouble(x, m);
    }
  }

  lemma ModOfDouble(x: nat, m: nat)
    requires m >= 1
    ensures x % (2 * m) == x % 2 + 2 * ((x / 2) % m)
  {
    var q := (x / 2) / m;
    var r := x % 2 + 2 * ((x / 2) % m);
    assert x == (2 * m) * q + r;
    DivModUnique(x, 2 * m, q, r);
  }

  /** Euclidean division is unique: the quotient and remainder are pinned by `a == d*q + r, 0 <= r < d`. */
  lemma DivModUnique(a: int, d: int, q: int, r: int)
    requires d > 0 && 0 <= r < d && a == d * q + r
    ensures a / d == q && a % d == r
  {
    var q' := a / d;
    var r' := a % d;
    assert d * q' + r' == d * q + r;
    if q' < q {
      assert d * (q - q') == d * q - d * q';
      MulAtLeast(d, q - q');
    } else if q' > q {
      assert d * (q' - q) == d * q' - d * q;
      MulAtLeast(d, q' - q);
    }
  }

  lemma {:induction false} MulAtLeast(d: int, k: int)
    requires d > 0 && k >= 1
    ensures d * k >= d
    decreases k
  {
    if k > 1 {
      MulAtLeast(d, k - 1);
      assert d * k == d * (k - 1) + d;
    }
  }

  /** Positional notation: digits below d of a base-d two-digit number are unique. */
  lemma MixedRadix(q1: int, r1: int, q2: int, r2: int, d: int)
    requires d > 0 && 0 <= r1 < d && 0 <= r2 < d
    requires d * q1 + r1 == d * q2 + r2
    ensures q1 == q2 && r1 == r2
  {
    DivModUnique(d * q1 + r1, d, q1, r1);
    DivModUnique(d * q2 + r2, d, q2, r2);
  }

  /** `MixedRadix` with the digit weight written after the digit. */
  lemma DigitsUnique(q1: int, r1: int, q2: int, r2: int, d: int)
    requires d > 0 && 0 <= r1 < d && 0 <= r2 < d
    requires q1 * d + r1 == q2 * d + r2
    ensures q1 == q2 && r1 == r2
  {
    MixedRadix(q1, r1, q2, r2, d);
  }

  /** The signed reading of a byte, `DataView.getInt8`. */
  function Int8(b: byte): (v: int)
    ensures -128 <= v < 128
    ensures v < 0 <==> b >= 128
  {
    if b < 128 then b else b - 256
  }

  /** A big-endian 16-bit word, `DataView.getUint16`. */
  function Be16(hi: byte, lo: byte): (w: nat)
    ensures w < 65536
  {
    hi * 256 + lo
  }

  /** The big-endian bytes of a 16-bit word, as `DataView.setUint16` stores them. */
  function Be16Bytes(w: nat): (bs: seq<byte>)
    requires w < 65536
    ensures |bs| == 2 && Be16(bs[0], bs[1]) == w
  {
    [w / 256, w % 256]
  }

  /** The big-endian bytes of a 32-bit word, as `DataView.setUint32` stores them. */
  function Be32Bytes(v: nat): (bs: seq<byte>)
    requires v < 0x1_0000_0000
    ensures |bs| == 4
  {
    var t := v / 256;
    var t2 := t / 256;
    [t2 / 256, t2 % 256, t % 256, v % 256]
  }

  /** The big-endian 32-bit word held in four bytes, as `DataView.getUint32` reads it. */
  function Be32(bs: seq<byte>): (v: nat)
    requires |bs| == 4
    ensures v < 0x1_0000_0000
  {
    ((bs[0] as int * 256 + bs[1]) * 256 + bs[2]) * 256 + bs[3]
  }

  lemma Be32RoundTrip(v: nat)
    requires v < 0x1_0000_0000
    ensures Be32(Be32Bytes(v)) == v
  {
    var t := v / 256;
    var t2 := t / 256;
    assert t2 == (t2 / 256) * 256 + t2 % 256;
    assert t == t2 * 256 + t % 256;
    assert v == t * 256 + v % 256;
  }

  lemma Be32BytesRoundTrip(bs: seq<byte>)
    requires |bs| == 4
    ensures Be32Bytes(Be32(bs)) == bs
  {
    var t2 := bs[0] as int * 256 + bs[1];
    var t := t2 * 256 + bs[2];
    var v := t * 256 + bs[3];
    DivModUnique(v, 256, t, bs[3]);
    DivModUnique(t, 256, t2, bs[2]);
    DivModUnique(t2, 256, bs[0], bs[1]);
  }

  /** ToUint32 of an integer: wrap-around modulo 2^32. */
  function Wrap32(x: int): (u: nat)
    ensures u < 0x1_0000_0000
  {
    x % 0x1_0000_0000
  }

  /** Reinterprets an unsigned 32-bit value as signed two's complement, as ToInt32 does. */
  function Signed32(u: nat): int
    requires u < 0x1_0000_0000
  {
    if u < 0x8000_0000 then u else u - 0x1_0000_0000
  }
}
