/** The Gorilla encoder and decoder (internal/engine/metrics/gorilla.go), bit by bit over a byte
    buffer. */
module Gorilla {
  import opened Wrappers
  import opened Bytes
  import opened Bits
  import opened GorillaSpec
  import opened GorillaStream

  class Encoder {
    var buf: Bytes
    var bitPos: nat
    var st: State

    /** Bits beyond the write position are still zero. */
    ghost predicate Valid()
      reads this
    {
      bitPos <= 8 * |buf| && forall i | bitPos <= i < 8 * |buf| :: !Unpacked(buf)[i]
    }

    /** The bits written so far. */
    ghost function Stream(): Bits
      requires Valid()
      reads this
    {
      Unpacked(buf)[..bitPos]
    }

    constructor (capacity: nat)
      ensures Valid() && Stream() == [] && st == START
    {
      UnpackedZeros(capacity);
      buf, bitPos, st := Zeros(capacity), 0, START;
    }

    /** Double the buffer when n more bits do not fit. */
    method EnsureCapacity(n: nat)
      requires Valid()
      modifies this`buf
      ensures Valid() && Stream() == old(Stream()) && bitPos + n <= 8 * |buf|
    {
      hide Unpacked;
      var needed := (bitPos + n + 7) / 8;
      CeilBytes(bitPos + n);
      if needed <= |buf| {
        return;
      }
      UnpackedAppend(buf, Zeros(needed * 2 - |buf|));
      UnpackedZeros(needed * 2 - |buf|);
      buf := buf + Zeros(needed * 2 - |buf|);
    }

    /** The bytes that hold the stream; the last one is padded with zeros. */
    method Encoded() returns (b: Bytes)
      requires Valid()
      ensures |b| == (bitPos + 7) / 8 && Stream() <= Unpacked(b)
      ensures forall i | bitPos <= i < 8 * |b| :: !Unpacked(b)[i]
    {
      hide Unpacked;
      var byteLen := (bitPos + 7) / 8;
      CeilBytes(bitPos);
      b := buf[..byteLen];
      assert buf == b + buf[byteLen..];
      UnpackedAppend(b, buf[byteLen..]);
      assert forall i | 0 <= i < 8 * |b| :: Unpacked(b)[i] == Unpacked(buf)[i];
    }

    method WriteBit(bit: bool)
      requires Valid()
      modifies this`buf, this`bitPos
      ensures Valid() && Stream() == old(Stream()) + [bit]
    {
      hide Unpacked;
      EnsureCapacity(1);
      var byteIdx, bitIdx := bitPos / 8, 7 - bitPos % 8;
      if bit {
        SetUnpacked(buf, bitPos);
        buf := buf[byteIdx := SetBit(buf[byteIdx], bitIdx)];
      }
      bitPos := bitPos + 1;
    }

    /** The n low bits of v, most significant first. */
    method WriteBits(v: nat, n: nat)
      requires Valid()
      modifies this`buf, this`bitPos
      ensures Valid() && Stream() == old(Stream()) + BitsOf(v, n)
    {
      EnsureCapacity(n);
      var i := n;
      while i > 0
        invariant Valid() && 0 <= i <= n && Stream() == old(Stream()) + BitsOf(Shift(v, i), n - i)
      {
        i := i - 1;
        WriteBit(Shift(v, i) % 2 == 1);
      }
    }

    /** A pattern or part of one. */
    method WritePattern(b: Bits)
      requires Valid()
      modifies this`buf, this`bitPos
      ensures Valid() && Stream() == old(Stream()) + b
    {
      for i := 0 to |b|
        invariant Valid() && Stream() == old(Stream()) + b[..i]
      {
        WriteBit(b[i]);
      }
    }

    method WriteTimestamp(ts: I64)
      requires Valid()
      modifies this
      ensures Valid() && Stream() == old(Stream()) + TimeBits(old(st), ts) && st == AfterTime(old(st), ts)
    {
      hide BitsOf;
      if !st.hasTime {
        WriteBits(if ts < 0 then ts + U64_LIMIT else ts, 64);
        st := st.(prevTime := ts, prevDelta := 0, hasTime := true);
        return;
      }
      var delta := Wrap(ts - st.prevTime);
      var dod := Wrap(delta - st.prevDelta);
      WriteDod(dod);
      st := st.(prevTime := ts, prevDelta := delta);
    }

    /** A control code and a number after it. */
    method WriteCode(control: nat, width: nat, v: nat, n: nat)
      requires Valid()
      modifies this`buf, this`bitPos
      ensures Valid() && Stream() == old(Stream()) + (BitsOf(control, width) + BitsOf(v, n))
    {
      hide BitsOf;
      WriteBits(control, width);
      WriteBits(v, n);
    }

    /** The range switch. */
    method WriteDod(dod: I64)
      requires Valid()
      modifies this`buf, this`bitPos
      ensures Valid() && Stream() == old(Stream()) + DodBits(dod)
    {
      Controls();
      hide BitsOf, Wrap;
      if dod == 0 {
        WriteBit(false);
      } else if -63 <= dod <= 64 {
        WriteCode(2, 2, dod % 128, 7);
      } else if -255 <= dod <= 256 {
        WriteCode(6, 3, dod % 512, 9);
      } else if -2047 <= dod <= 2048 {
        WriteCode(14, 4, dod % 4096, 12);
      } else {
        WriteCode(15, 4, dod % TWO_32, 32);
      }
    }

    method WriteFloat(v: Word)
      requires Valid() && st.leading + st.trailing <= 64
      modifies this
      ensures Valid() && Stream() == old(Stream()) + ValueBits(old(st), v) && st == AfterValue(old(st), v)
    {
      hide BitsOf, Xor, LeadingZeros, TrailingZeros;
      if !st.hasValue {
        WritePattern(v);
        st := st.(prevValue := v, hasValue := true);
        return;
      }
      var x := Xor(v, st.prevValue);
      if Zero(x) {
        WriteBit(false);
        st := st.(prevValue := v);
        return;
      }
      if LeadingZeros(x) >= st.leading && TrailingZeros(x) >= st.trailing {
        WritePattern([true, false] + x[st.leading..64 - st.trailing]);
      } else {
        WriteWindow(x);
      }
      st := st.(prevValue := v);
    }

    /** A new window: its position, its length and the bits in it. */
    method WriteWindow(x: Word)
      requires Valid() && !Zero(x)
      modifies this
      ensures var lead, trail := LeadingZeros(x), TrailingZeros(x);
        && Valid() && lead + trail <= 64 && st == old(st).(leading := lead, trailing := trail)
        && Stream() == old(Stream()) + ([true, true] + BitsOf(lead, 5) + (BitsOf(64 - lead - trail, 6) + x[lead..64 - trail]))
    {
      hide BitsOf, LeadingZeros, TrailingZeros;
      SomeBitSet(x);
      var leading, trailing := LeadingZeros(x), TrailingZeros(x);
      WritePattern([true, true]);
      WriteCode(leading, 5, 64 - leading - trailing, 6);
      WritePattern(x[leading..64 - trailing]);
      st := st.(leading := leading, trailing := trailing);
    }
  }

  lemma CeilBytes(bits: nat)
    ensures bits <= 8 * ((bits + 7) / 8) < bits + 8
  {}

  lemma Controls()
    ensures BitsOf(2, 2) == [true, false] && BitsOf(6, 3) == [true, true, false]
    ensures BitsOf(14, 4) == [true, true, true, false] && BitsOf(15, 4) == [true, true, true, true]
  {
    assert BitsOf(1, 1) == [true] && BitsOf(3, 2) == [true, true] && BitsOf(7, 3) == [true, true, true];
  }

  lemma {:induction false} SomeBitSet(x: Bits)
    requires !Zero(x)
    ensures LeadingZeros(x) + TrailingZeros(x) <= |x|
  {
    if !x[0] {
      assert !Zero(x[1..]) by {
        var i :| 0 <= i < |x| && x[i];
        assert x[1..][i - 1];
      }
      SomeBitSet(x[1..]);
      TrailingTail(x);
    }
  }

  lemma {:induction false} TrailingTail(x: Bits)
    requires x != [] && !Zero(x[1..])
    ensures TrailingZeros(x) == TrailingZeros(x[1..])
    decreases |x|
  {
    var n := |x| - 1;
    if !x[n] {
      assert x[..n][1..] == x[1..][..n - 1];
      assert !Zero(x[..n][1..]) by {
        var i :| 0 <= i < n && x[1..][i];
        assert x[..n][1..][i];
      }
      TrailingTail(x[..n]);
    }
  }

  class Decoder {
    const buf: Bytes
    var bitPos: nat
    var st: State

    ghost predicate Valid()
      reads this
    {
      bitPos <= 8 * |buf|
    }

    /** The unread bits. */
    ghost function Left(): Bits
      requires Valid()
      reads this
    {
      Unpacked(buf)[bitPos..]
    }

    constructor (buf: Bytes)
      ensures Valid() && Left() == Unpacked(buf) && st == START
    {
      this.buf, bitPos, st := buf, 0, START;
    }

    method ReadBit() returns (bit: bool)
      requires Valid() && bitPos < 8 * |buf|
      modifies this`bitPos
      ensures Valid() && bitPos == old(bitPos) + 1 && bit == old(Left())[0]
    {
      var byteIdx, bitIdx := bitPos / 8, 7 - bitPos % 8;
      bit := BitAt(buf[byteIdx], bitIdx);
      bitPos := bitPos + 1;
    }

    method ReadBits(n: nat) returns (v: nat)
      requires Valid() && bitPos + n <= 8 * |buf|
      modifies this`bitPos
      ensures Valid() && bitPos == old(bitPos) + n && v == Number(old(Left())[..n])
    {
      v := 0;
      ghost var left := Left();
      for i := 0 to n
        invariant Valid() && bitPos == old(bitPos) + i && v == Number(left[..i])
      {
        assert left[..i + 1][..i] == left[..i];
        var bit := ReadBit();
        v := 2 * v + if bit then 1 else 0;
      }
    }

    /** The control bits and the value behind them. */
    method ReadDelta() returns (dod: int)
      requires Valid() && ReadDod(Left()).Some?
      modifies this`bitPos
      ensures Valid() && ReadDod(old(Left())) == Some((dod, bitPos - old(bitPos)))
    {
      hide Number;
      ghost var left := Left();
      var control := ReadBit();
      if !control {
        return 0;
      }
      var control2 := ReadBit();
      if !control2 {
        assert Left() == left[2..];
        dod := ReadBits(7);
        if dod % 128 >= 64 {
          dod := dod - 128;
        }
        return;
      }
      var control3 := ReadBit();
      if !control3 {
        assert Left() == left[3..];
        dod := ReadBits(9);
        if dod > 256 {
          dod := dod - 512;
        }
        return;
      }
      var control4 := ReadBit();
      assert Left() == left[4..];
      if !control4 {
        dod := ReadBits(12);
        if dod > 2048 {
          dod := dod - 4096;
        }
        return;
      }
      dod := ReadBits(32);
      if dod >= TWO_31 {
        dod := dod - TWO_32;
      }
    }

    method ReadTimestamp() returns (ts: I64)
      requires Valid() && ReadTime(st, Left()).Some?
      modifies this
      ensures Valid() && ReadTime(old(st), old(Left())) == Some((ts, bitPos - old(bitPos)))
      ensures st == DecodedTime(old(st), old(Left()))
    {
      hide Number, ReadDod;
      if !st.hasTime {
        var n := ReadBits(64);
        ts := Signed(n);
        st := st.(prevTime := ts, prevDelta := 0, hasTime := true);
        return;
      }
      var dod := ReadDelta();
      var delta := Wrap(dod + st.prevDelta);
      ts := Wrap(st.prevTime + delta);
      st := st.(prevDelta := delta, prevTime := ts);
    }

    method ReadPattern(n: nat) returns (b: Bits)
      requires Valid() && bitPos + n <= 8 * |buf|
      modifies this`bitPos
      ensures Valid() && bitPos == old(bitPos) + n && b == old(Left())[..n]
    {
      b := [];
      ghost var left := Left();
      for i := 0 to n
        invariant Valid() && bitPos == old(bitPos) + i && b == left[..i]
      {
        var bit := ReadBit();
        b := b + [bit];
      }
    }

    method ReadFloat() returns (v: Word)
      requires Valid() && ReadValue(st, Left()).Some?
      modifies this
      ensures Valid() && st == DecodedValue(old(st), old(Left()))
      ensures ReadValue(old(st), old(Left())) == Some((v, bitPos - old(bitPos), st.leading, st.trailing))
    {
      hide Xor, Number;
      if !st.hasValue {
        v := ReadPattern(64);
        st := st.(prevValue := v, hasValue := true);
        return;
      }
      ghost var left := Left();
      var same := ReadBit();
      if !same {
        v := st.prevValue;
        return;
      }
      var x := ReadDifference(left);
      v := Xor(st.prevValue, x);
      st := st.(prevValue := v);
    }

    /** The differing bits, in the old window or a new one. */
    method ReadDifference(ghost left: Bits) returns (x: Word)
      requires Valid() && |left| >= 1 && Left() == left[1..] && ReadXor(st, left).Some?
      modifies this
      ensures Valid() && st == old(st).(leading := st.leading, trailing := st.trailing)
      ensures ReadXor(old(st), left) == Some((x, bitPos - old(bitPos) + 1, st.leading, st.trailing))
    {
      hide Number, Unpacked;
      var control := ReadBit();
      if !control {
        assert Left() == left[2..];
        var m := ReadPattern(64 - st.leading - st.trailing);
        assert m == left[2..2 + 64 - st.leading - st.trailing];
        x := Widen(m, st.trailing).value;
        return;
      }
      assert Left() == left[2..];
      var leading := ReadBits(5);
      assert Left() == left[7..];
      var len := ReadBits(6);
      assert Left() == left[13..];
      var m := ReadPattern(len);
      assert m == left[13..13 + len];
      x := Widen(m, 64 - leading - len).value;
      st := st.(leading := leading, trailing := 64 - leading - len);
    }
  }

  // ----- whole streams -----

  method EncodeAll(items: seq<Item>) returns (b: Bytes)
    ensures Encode(START, items) <= Unpacked(b)
  {
    hide ItemBits, ValueBits, TimeBits, AfterTime, AfterValue, Encode, Final;
    var e := new Encoder(64);
    EncodeNone();
    for i := 0 to |items|
      invariant e.Valid() && e.Stream() == Encode(START, items[..i]) && e.st == Final(START, items[..i])
      invariant e.st.leading == 0 && e.st.trailing == 0
    {
      EncodeSnoc(START, items[..i], items[i]);
      assert items[..i + 1] == items[..i] + [items[i]];
      WindowStays(e.st, items[i]);
      ItemSteps(e.st, items[i]);
      match items[i]
      case Time(ts) => e.WriteTimestamp(ts);
      case Value(v) => e.WriteFloat(v);
    }
    assert items[..|items|] == items;
    b := e.Encoded();
  }

  lemma EncodeNone()
    ensures Encode(START, []) == [] && Final(START, []) == START
  {}

  lemma ItemSteps(st: State, item: Item)
    ensures item.Time? ==> ItemBits(st, item) == TimeBits(st, item.ts) && After(st, item) == AfterTime(st, item.ts)
    ensures item.Value? ==> ItemBits(st, item) == ValueBits(st, item.bits) && After(st, item) == AfterValue(st, item.bits)
  {}

  method DecodeAll(kinds: seq<Kind>, b: Bytes) returns (items: seq<Item>)
    requires Decode(START, kinds, Unpacked(b)).Some?
    ensures items == Decode(START, kinds, Unpacked(b)).value
  {
    hide ReadTime, ReadValue, DecodedTime, DecodedValue, Decode, Unpacked;
    var d := new Decoder(b);
    items := [];
    assert kinds[0..] == kinds;
    ghost var all := Decode(START, kinds, Unpacked(b)).value;
    assert [] + all == all;
    for i := 0 to |kinds|
      invariant d.Valid() && Decode(d.st, kinds[i..], d.Left()).Some?
      invariant all == items + Decode(d.st, kinds[i..], d.Left()).value
    {
      DecodeStep(d.st, kinds[i..], d.Left());
      assert kinds[i..][1..] == kinds[i + 1..];
      ghost var left, at := d.Left(), d.bitPos;
      if kinds[i] == KindTime {
        var ts := d.ReadTimestamp();
        assert d.Left() == left[d.bitPos - at..];
        items := items + [Time(ts)];
      } else {
        var v := d.ReadFloat();
        assert d.Left() == left[d.bitPos - at..];
        items := items + [Value(v)];
      }
    }
    DecodeNone(d.st, d.Left());
    assert kinds[|kinds|..] == [];
  }

  lemma DecodeNone(st: State, b: Bits)
    ensures Decode(st, [], b) == Some([])
  {}

  lemma DecodeStep(st: State, kinds: seq<Kind>, b: Bits)
    requires kinds != [] && Decode(st, kinds, b).Some?
    ensures kinds[0] == KindTime ==>
      && ReadTime(st, b).Some? && ReadTime(st, b).value.1 <= |b|
      && var rest := Decode(DecodedTime(st, b), kinds[1..], b[ReadTime(st, b).value.1..]);
         rest.Some? && Decode(st, kinds, b).value == [Time(ReadTime(st, b).value.0)] + rest.value
    ensures kinds[0] == KindValue ==>
      && ReadValue(st, b).Some? && ReadValue(st, b).value.1 <= |b|
      && var rest := Decode(DecodedValue(st, b), kinds[1..], b[ReadValue(st, b).value.1..]);
         rest.Some? && Decode(st, kinds, b).value == [Value(ReadValue(st, b).value.0)] + rest.value
  {
    hide ReadTime, ReadValue, DecodedTime, DecodedValue;
  }

  /** Writing and reading back: every value pattern, and every timestamp whose delta of delta
      fits, comes back unchanged. */
  method WriteThenRead(items: seq<Item>) returns (back: seq<Item>)
    requires SecondsFit(Times(items))
    ensures back == items
  {
    hide Times, Encode, Decode, SecondsFit;
    var b := EncodeAll(items);
    ghost var rest := Unpacked(b)[|Encode(START, items)|..];
    assert Unpacked(b) == Encode(START, items) + rest;
    StreamIff(items, rest);
    back := DecodeAll(Kinds(items), b);
  }
}
