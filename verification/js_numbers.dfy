/**
 * The JavaScript number conversions the codecs rely on: truncation toward
 * zero, ToInt32 and ToUint32, and the 32-bit shift operators.
 */
module JsNumbers {
  import opened Bits

  const Two32: nat := 0x1_0000_0000

  /** Rounding toward zero, the first step of ToInt32 and ToUint32. */
  function Trunc(x: real): (t: int)
    ensures x >= 0.0 ==> 0 <= t && t as real <= x < t as real + 1.0
    ensures x < 0.0 ==> t <= 0 && t as real - 1.0 < x <= t as real
  {
    if x >= 0.0 then x.Floor else -((-x).Floor)
  }

  /** `x >>> 0` */
  function ToUint32(x: real): (u: nat)
    ensures u < Two32
  {
    Wrap32(Trunc(x))
  }

  /** `x | 0` */
  function ToInt32(x: real): (v: int)
    ensures -0x8000_0000 <= v < 0x8000_0000
  {
    Signed32(Wrap32(Trunc(x)))
  }

  /** `x << s`: the count is taken modulo 32 and the result wraps to a signed 32-bit value. */
  function ShiftLeft(x: real, s: int): (v: int)
    ensures -0x8000_0000 <= v < 0x8000_0000
  {
    Signed32(Wrap32(ToInt32(x) * Pow2(s % 32)))
  }

  /** `x >> s & 0xff` on an integer: the byte of x's 32-bit pattern that starts at bit s. */
  function ByteAtShift(x: int, s: int): (b: byte)
  {
    (Signed32(Wrap32(x)) / Pow2(s % 32)) % 256
  }

  lemma Pow2Bytes()
    ensures Pow2(8) == 256 && Pow2(16) == 0x1_0000 && Pow2(24) == 0x100_0000 && Pow2(32) == Two32
  {
    assert Pow2(4) == 16 by {
      assert Pow2(2) == 4;
    }
    assert Pow2(8) == 256 by {
      assert Pow2(8) == 16 * Pow2(4) by {
        PowAdd(4, 4);
      }
    }
    PowAdd(8, 8);
    PowAdd(16, 8);
    PowAdd(16, 16);
  }

  lemma {:induction false} PowAdd(a: nat, b: nat)
    ensures Pow2(a + b) == Pow2(a) * Pow2(b)
  {
    if b > 0 {
      PowAdd(a, b - 1);
      assert Pow2(a + b) == 2 * Pow2(a + b - 1);
    }
  }

  /** ToInt32 keeps every integer of the signed 32-bit range. */
  lemma ToInt32OfInt(n: int)
    requires -0x8000_0000 <= n < 0x8000_0000
    ensures ToInt32(n as real) == n
  {
    if n < 0 {
      DivModUnique(n, Two32, -1, n + Two32);
    }
  }

  /** Wrapping a signed reinterpretation changes nothing modulo 2^32. */
  lemma WrapSigned(u: nat, y: int)
    requires u < Two32
    ensures Wrap32(Signed32(u) + y) == Wrap32(u + y)
  {
    if u >= 0x8000_0000 {
      var q, r := (u + y) / Two32, (u + y) % Two32;
      DivModUnique(u - Two32 + y, Two32, q - 1, r);
    }
  }

  lemma TruncInt(n: int)
    ensures Trunc(n as real) == n
  {
  }

  /** Removing k*256 whole steps of p leaves the byte at p unchanged. */
  lemma ShiftedByte(u: int, p: nat, k: int)
    requires p > 0 && k % 256 == 0
    ensures ((u - p * k) / p) % 256 == (u / p) % 256
  {
    var q, r := u / p, u % p;
    assert u - p * k == p * (q - k) + r;
    DivModUnique(u - p * k, p, q - k, r);
    DivModUnique(q - k, 256, q / 256 - k / 256, q % 256);
  }

  /** `x >> s & 0xff` reads the same byte of the pattern whether x is taken as signed or unsigned. */
  lemma ByteAtShiftUnsigned(u: nat, s: nat)
    requires u < Two32 && s in {0, 8, 16, 24}
    ensures ByteAtShift(u, s) == (u / Pow2(s)) % 256
  {
    Pow2Bytes();
    DivModUnique(u, Two32, 0, u);
    if u >= 0x8000_0000 {
      assert Pow2(s) * (Two32 / Pow2(s)) == Two32;
      ShiftedByte(u, Pow2(s), Two32 / Pow2(s));
    }
  }

  /** The four `>> s & 0xff` extractions of a 32-bit value are its big-endian bytes. */
  lemma ByteAtShiftBytes(v: nat)
    requires v < Two32
    ensures [ByteAtShift(v, 24), ByteAtShift(v, 16), ByteAtShift(v, 8), ByteAtShift(v, 0)] == Be32Bytes(v)
  {
    Pow2Bytes();
    ByteAtShiftUnsigned(v, 24);
    ByteAtShiftUnsigned(v, 16);
    ByteAtShiftUnsigned(v, 8);
    ByteAtShiftUnsigned(v, 0);
    Be32Digits(v);
  }

  /** The big-endian bytes of a 32-bit value are its base-256 digits. */
  lemma Be32Digits(v: nat)
    requires v < Two32
    ensures Be32Bytes(v) == [v / 0x100_0000 % 256, v / 0x1_0000 % 256, v / 256 % 256, v % 256]
  {
    var t := v / 256;
    var t2 := t / 256;
    DivModUnique(v, 0x1_0000, t2, (t % 256) * 256 + v % 256);
    DivModUnique(v, 0x100_0000, t2 / 256, (t2 % 256) * 0x1_0000 + (t % 256) * 256 + v % 256);
  }

  /** `(r << 24) + (g << 16) + (b << 8) + a >>> 0` on bytes is the big-endian word of the four. */
  lemma ShiftLeftPack(r: byte, g: byte, b: byte, a: byte)
    ensures ToUint32((ShiftLeft(r as real, 24) + ShiftLeft(g as real, 16) + ShiftLeft(b as real, 8)) as real + a as real)
            == Be32([r, g, b, a])
  {
    Pow2Bytes();
    ShiftLeftByte(r, 24, 0x100_0000);
    ShiftLeftByte(g, 16, 0x1_0000);
    ShiftLeftByte(b, 8, 256);
    var hi := r * 0x100_0000;
    var rest := g * 0x1_0000 + b * 256 + a;
    TruncInt(ShiftLeft(r as real, 24) + rest);
    assert (ShiftLeft(r as real, 24) + ShiftLeft(g as real, 16) + ShiftLeft(b as real, 8)) as real + a as real
           == (ShiftLeft(r as real, 24) + rest) as real;
    WrapSigned(hi, rest);
    DivModUnique(hi + rest, Two32, 0, hi + rest);
  }

  /** `x << s` on a byte whose product with 2^s fits in 32 bits: the product, read as signed. */
  lemma ShiftLeftByte(x: byte, s: nat, p: nat)
    requires s < 32 && p == Pow2(s) && x * p < Two32
    ensures ShiftLeft(x as real, s) == Signed32(x * p)
  {
    ToInt32OfInt(x);
    DivModUnique(x * p, Two32, 0, x * p);
  }

  lemma {:induction false} PowMono(a: nat, b: nat)
    requires a <= b
    ensures Pow2(a) <= Pow2(b)
  {
    if a < b {
      PowMono(a, b - 1);
    }
  }

  lemma Pow2Below31(n: nat)
    requires n < 31
    ensures Pow2(n) < 0x8000_0000
  {
    assert Pow2(30) == 0x4000_0000 by {
      Pow2Bytes();
      PowAdd(24, 6);
      assert Pow2(6) == 64;
    }
    PowMono(n, 30);
  }


  lemma Pow2Below32(n: nat)
    requires n < 32
    ensures Pow2(n) < Two32
  {
    if n < 31 {
      Pow2Below31(n);
    } else {
      Pow2Below31(30);
      assert Pow2(31) == 2 * Pow2(30);
    }
  }

  /** `1 << n`: bit n mod 32 set, read as a signed 32-bit value. */
  function ShiftOne(n: nat): (v: int)
    ensures -0x8000_0000 <= v < 0x8000_0000
  {
    Pow2Below32(n % 32);
    Signed32(Pow2(n % 32))
  }

  lemma ShiftOneIsShiftLeft(n: nat)
    ensures ShiftOne(n) == ShiftLeft(1.0, n)
  {
    Pow2Below32(n % 32);
    ToInt32OfInt(1);
    var x := Pow2(n % 32);
    DivModUnique(x, Two32, 0, x);
  }
}
