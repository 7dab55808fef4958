/** Byte strings, fixed-width big-endian integers and the byte-wise key order. */
module Bytes {

  type byte = x: int | 0 <= x < 0x100
  type Bytes = seq<byte>
  type U16 = x: int | 0 <= x < 0x1_0000
  type U32 = x: int | 0 <= x < 0x1_0000_0000
  type U64 = x: int | 0 <= x < 0x1_0000_0000_0000_0000

  const U64_LIMIT: int := 0x1_0000_0000_0000_0000
  const SIGN_BIT: int := 0x8000_0000_0000_0000
  type I64 = x: int | -SIGN_BIT <= x < SIGN_BIT

  /** Bytes of a page body behind its checksum. */
  const BODY_SIZE: nat := 4084

  /** Pages before this one hold the header and its mirror. */
  const FIRST_DATA_PAGE: nat := 2

  /** The end of the free list, of the leaf chain and of an overflow chain, and the root of an
      empty tree. */
  const SENTINEL: nat := 0xFFFF_FFFF_FFFF_FFFF

  // ----- big-endian integers -----

  /** 256 to the power n. */
  function Pow256(n: nat): (p: nat)
    ensures p >= 1
  {
    if n == 0 then 1 else 256 * Pow256(n - 1)
  }

  /** The `width` low-order bytes of n, most significant first. */
  function BigEndian(n: nat, width: nat): (b: Bytes)
    ensures |b| == width
  {
    if width == 0 then [] else BigEndian(n / 256, width - 1) + [n % 256]
  }

  function FromBigEndian(b: Bytes): nat {
    if b == [] then 0 else 256 * FromBigEndian(b[..|b| - 1]) + b[|b| - 1]
  }

  lemma {:induction false} BigEndianRoundTrip(n: nat, width: nat)
    requires n < Pow256(width)
    ensures FromBigEndian(BigEndian(n, width)) == n
  {
    if width > 0 {
      BigEndianRoundTrip(n / 256, width - 1);
      assert BigEndian(n, width)[..width - 1] == BigEndian(n / 256, width - 1);
    }
  }

  lemma {:induction false} FromBigEndianBound(b: Bytes)
    ensures FromBigEndian(b) < Pow256(|b|)
  {
    if b != [] { FromBigEndianBound(b[..|b| - 1]); }
  }

  lemma {:induction false} BigEndianOf(b: Bytes)
    ensures BigEndian(FromBigEndian(b), |b|) == b
  {
    if b != [] {
      var n := |b| - 1;
      BigEndianOf(b[..n]);
      assert FromBigEndian(b) / 256 == FromBigEndian(b[..n]) && FromBigEndian(b) % 256 == b[n];
      assert b == b[..n] + [b[n]];
    }
  }

  lemma {:induction false} ZeroIsZero(b: Bytes)
    requires forall i | 0 <= i < |b| :: b[i] == 0
    ensures FromBigEndian(b) == 0
  {
    if b != [] { ZeroIsZero(b[..|b| - 1]); }
  }

  lemma Pow256Values()
    ensures Pow256(2) == 0x1_0000
    ensures Pow256(4) == 0x1_0000_0000
    ensures Pow256(8) == 0x1_0000_0000_0000_0000
  {
    assert Pow256(1) == 256;
    assert Pow256(2) == 256 * Pow256(1);
    assert Pow256(3) == 256 * Pow256(2);
    assert Pow256(4) == 256 * Pow256(3);
    assert Pow256(5) == 256 * Pow256(4);
    assert Pow256(6) == 256 * Pow256(5);
    assert Pow256(7) == 256 * Pow256(6);
    assert Pow256(8) == 256 * Pow256(7);
  }

  function Put64(n: U64): (b: Bytes)
    ensures |b| == 8
  {
    BigEndian(n, 8)
  }

  function Get64(b: Bytes): (n: U64)
    requires |b| == 8
  {
    Pow256Values();
    FromBigEndianBound(b);
    FromBigEndian(b)
  }

  lemma Get64Put64(n: U64)
    ensures Get64(Put64(n)) == n
  {
    Pow256Values();
    BigEndianRoundTrip(n, 8);
  }

  lemma Put64Get64(b: Bytes)
    requires |b| == 8
    ensures Put64(Get64(b)) == b
  {
    BigEndianOf(b);
  }

  function Put32(n: U32): (b: Bytes)
    ensures |b| == 4
  {
    BigEndian(n, 4)
  }

  function Get32(b: Bytes): (n: U32)
    requires |b| == 4
  {
    Pow256Values();
    FromBigEndianBound(b);
    FromBigEndian(b)
  }

  lemma Get32Put32(n: U32)
    ensures Get32(Put32(n)) == n
  {
    Pow256Values();
    BigEndianRoundTrip(n, 4);
  }

  lemma Put32Get32(b: Bytes)
    requires |b| == 4
    ensures Put32(Get32(b)) == b
  {
    BigEndianOf(b);
  }

  function Put16(n: U16): (b: Bytes)
    ensures |b| == 2
  {
    BigEndian(n, 2)
  }

  function Get16(b: Bytes): (n: U16)
    requires |b| == 2
  {
    Pow256Values();
    FromBigEndianBound(b);
    FromBigEndian(b)
  }

  lemma Get16Put16(n: U16)
    ensures Get16(Put16(n)) == n
  {
    Pow256Values();
    BigEndianRoundTrip(n, 2);
  }

  function Zeros(n: nat): (b: Bytes)
    ensures |b| == n
  {
    seq(n, i => 0)
  }

  // ----- byte-wise order -----

  /** `bytes.Compare(a, b) < 0`. */
  predicate LexLess(a: Bytes, b: Bytes) {
    b != [] && (a == [] || a[0] < b[0] || (a[0] == b[0] && LexLess(a[1..], b[1..])))
  }

  /** Position of a byte string in the byte-wise order, as a point of [0, 1): comparing
      ranks is comparing byte strings (see RankIsLexOrder). */
  function Rank(k: Bytes): real {
    if k == [] then 0.0 else (k[0] as real + 1.0 + Rank(k[1..])) / 257.0
  }

  lemma {:induction false} RankBounds(k: Bytes)
    ensures 0.0 <= Rank(k) < 1.0
    ensures k != [] ==> 0.0 < Rank(k)
  {
    if k != [] { RankBounds(k[1..]); }
  }

  /** Ranks order byte strings exactly as bytes.Compare does, and tell them apart. */
  lemma {:induction false} RankIsLexOrder(a: Bytes, b: Bytes)
    ensures LexLess(a, b) <==> Rank(a) < Rank(b)
    ensures Rank(a) == Rank(b) ==> a == b
  {
    RankBounds(a);
    RankBounds(b);
    if a != [] && b != [] {
      RankBounds(a[1..]);
      RankBounds(b[1..]);
      RankIsLexOrder(a[1..], b[1..]);
      assert a == [a[0]] + a[1..] && b == [b[0]] + b[1..];
      if a[0] < b[0] {
        assert a[0] as real + 1.0 <= b[0] as real;
      } else if a[0] > b[0] {
        assert b[0] as real + 1.0 <= a[0] as real;
      }
    }
  }

  lemma NothingBelow(k: Bytes)
    ensures !LexLess(k, [])
  {}
}
