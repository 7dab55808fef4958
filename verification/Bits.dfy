/** Numbers as bits, and bits packed into bytes. */
module Bits {
  import opened Bytes

  type Bits = seq<bool>

  function Pow2(n: nat): (p: nat)
    ensures p >= 1
  {
    if n == 0 then 1 else 2 * Pow2(n - 1)
  }

  /** v >> n. */
  function Shift(v: nat, n: nat): nat {
    if n == 0 then v else Shift(v, n - 1) / 2
  }

  /** The n low bits of v, most significant first. */
  function BitsOf(v: nat, n: nat): (b: Bits)
    ensures |b| == n
  {
    if n == 0 then [] else BitsOf(v / 2, n - 1) + [v % 2 == 1]
  }

  function Number(b: Bits): nat {
    if b == [] then 0 else 2 * Number(b[..|b| - 1]) + if b[|b| - 1] then 1 else 0
  }

  lemma {:induction false} NumberOfBits(v: nat, n: nat)
    ensures Number(BitsOf(v, n)) == v % Pow2(n)
  {
    if n > 0 {
      NumberOfBits(v / 2, n - 1);
      assert BitsOf(v, n)[..n - 1] == BitsOf(v / 2, n - 1);
      HalveMod(v, Pow2(n - 1));
    }
  }

  /** Bit i counts for 2^(n - 1 - i). */
  lemma {:induction false} BitValue(v: nat, n: nat, i: nat)
    requires i < n
    ensures BitsOf(v, n)[i] <==> Shift(v, n - 1 - i) % 2 == 1
  {
    if i < n - 1 {
      BitValue(v / 2, n - 1, i);
      ShiftHalf(v, n - 2 - i);
    }
  }

  lemma {:induction false} ShiftHalf(v: nat, n: nat)
    ensures Shift(v / 2, n) == Shift(v, n + 1)
  {
    if n > 0 { ShiftHalf(v, n - 1); }
  }

  lemma HalveMod(v: nat, m: nat)
    requires m >= 1
    ensures v % (2 * m) == 2 * ((v / 2) % m) + v % 2
  {
    var q, r := (v / 2) / m, (v / 2) % m;
    assert v / 2 == q * m + r && v == 2 * (v / 2) + v % 2;
    assert v == q * (2 * m) + (2 * r + v % 2) by { assert 2 * (q * m) == q * (2 * m); }
    ModUnique(v, 2 * m, q, 2 * r + v % 2);
  }

  lemma {:induction false} MulAtLeast(d: nat, m: nat)
    requires d >= 1
    ensures d * m >= m
  {
    if d > 1 {
      MulAtLeast(d - 1, m);
      assert d * m == (d - 1) * m + m;
    }
  }

  lemma AtLeastOnce(d: int, m: nat)
    requires d != 0
    ensures d * m >= m || d * m <= -(m as int)
  {
    if d > 0 {
      MulAtLeast(d, m);
    } else {
      MulAtLeast(-d, m);
      assert d * m == -((-d) * m);
    }
  }

  lemma ModUnique(v: nat, m: nat, q: nat, r: nat)
    requires m >= 1 && v == q * m + r && r < m
    ensures v % m == r
  {
    var d := v / m - q;
    assert d * m == (v / m) * m - q * m;
    assert d * m == r - v % m;
    if d != 0 { AtLeastOnce(d, m); }
  }

  lemma {:induction false} BitsOfNumber(b: Bits)
    ensures Number(b) < Pow2(|b|) && BitsOf(Number(b), |b|) == b
  {
    if b != [] {
      var n := |b| - 1;
      BitsOfNumber(b[..n]);
      assert b == b[..n] + [b[n]];
    }
  }

  // ----- bits of a byte -----

  lemma Pow2Eight()
    ensures Pow2(8) == 256
  {
    assert Pow2(4) == 16 && Pow2(8) == 16 * Pow2(4);
  }

  /** The byte with these bits, most significant first. */
  function ByteOf(b: Bits): byte
    requires |b| == 8
  {
    BitsOfNumber(b);
    Pow2Eight();
    Number(b)
  }

  lemma ByteBits(b: Bits)
    requires |b| == 8
    ensures BitsOf(ByteOf(b), 8) == b
  {
    BitsOfNumber(b);
  }

  lemma ByteOfBits(x: byte)
    ensures ByteOf(BitsOf(x, 8)) == x
  {
    NumberOfBits(x, 8);
    Pow2Eight();
  }

  /** x & (1 << i) != 0. */
  predicate BitAt(x: byte, i: nat)
    requires i < 8
  {
    BitsOf(x, 8)[7 - i]
  }

  /** x | (1 << i). */
  function SetBit(x: byte, i: nat): byte
    requires i < 8
  {
    ByteOf(BitsOf(x, 8)[7 - i := true])
  }

  lemma SetBitAt(x: byte, i: nat)
    requires i < 8
    ensures BitsOf(SetBit(x, i), 8) == BitsOf(x, 8)[7 - i := true]
  {
    ByteBits(BitsOf(x, 8)[7 - i := true]);
  }

  // ----- packed bits -----

  /** The bits of a buffer, each byte most significant bit first. */
  function Unpacked(buf: Bytes): (b: Bits)
    ensures |b| == 8 * |buf|
  {
    seq(8 * |buf|, i requires 0 <= i < 8 * |buf| => BitsOf(buf[i / 8], 8)[i % 8])
  }

  /** Setting a bit of a byte sets that bit of the buffer and no other. */
  lemma SetUnpacked(buf: Bytes, pos: nat)
    requires pos < 8 * |buf|
    ensures Unpacked(buf[pos / 8 := SetBit(buf[pos / 8], 7 - pos % 8)]) == Unpacked(buf)[pos := true]
  {
    hide BitsOf, SetBit;
    SetBitAt(buf[pos / 8], 7 - pos % 8);
    var after := buf[pos / 8 := SetBit(buf[pos / 8], 7 - pos % 8)];
    forall i | 0 <= i < 8 * |buf| ensures Unpacked(after)[i] == Unpacked(buf)[pos := true][i] {
      assert i / 8 == pos / 8 && i % 8 == pos % 8 ==> i == pos;
    }
  }

  lemma UnpackedAppend(a: Bytes, b: Bytes)
    ensures Unpacked(a + b) == Unpacked(a) + Unpacked(b)
  {
    hide BitsOf;
    forall i | 0 <= i < 8 * |a + b| ensures Unpacked(a + b)[i] == (Unpacked(a) + Unpacked(b))[i] {
      if i >= 8 * |a| {
        assert (i - 8 * |a|) / 8 == i / 8 - |a| && (i - 8 * |a|) % 8 == i % 8;
      }
    }
  }

  lemma {:induction false} NoBits(n: nat)
    ensures BitsOf(0, n) == seq(n, i => false)
  {
    if n > 0 { NoBits(n - 1); }
  }

  lemma UnpackedZeros(n: nat)
    ensures Unpacked(Zeros(n)) == seq(8 * n, i => false)
  {
    NoBits(8);
  }
}
