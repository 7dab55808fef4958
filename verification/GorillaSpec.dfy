/** Gorilla compression (internal/engine/metrics/gorilla.go): the bits of timestamps and values,
    decoding, and exactly which streams survive the round trip. */
module GorillaSpec {
  import opened Wrappers
  import opened Bytes
  import opened Bits

  /** A 64-bit pattern, most significant bit first. */
  type Word = b: Bits | |b| == 64 witness seq(64, i => false)

  const TWO_31: int := 0x8000_0000
  const TWO_32: int := 0x1_0000_0000

  /** 64-bit arithmetic wraps. */
  function Wrap(x: int): I64 {
    (x + SIGN_BIT) % U64_LIMIT - SIGN_BIT
  }

  // ----- numbers as bits -----

  lemma Pow2Values()
    ensures Pow2(7) == 128 && Pow2(9) == 512 && Pow2(12) == 4096 && Pow2(32) == TWO_32 && Pow2(64) == U64_LIMIT
  {
    assert Pow2(4) == 16 && Pow2(8) == 16 * Pow2(4) && Pow2(7) == 8 * Pow2(4);
    assert Pow2(9) == 2 * Pow2(8) && Pow2(12) == 16 * Pow2(8) && Pow2(16) == 16 * Pow2(12);
    assert Pow2(20) == 16 * Pow2(16) && Pow2(24) == 16 * Pow2(20) && Pow2(28) == 16 * Pow2(24);
    assert Pow2(32) == 16 * Pow2(28) && Pow2(36) == 16 * Pow2(32) && Pow2(40) == 16 * Pow2(36);
    assert Pow2(44) == 16 * Pow2(40) && Pow2(48) == 16 * Pow2(44) && Pow2(52) == 16 * Pow2(48);
    assert Pow2(56) == 16 * Pow2(52) && Pow2(60) == 16 * Pow2(56) && Pow2(64) == 16 * Pow2(60);
  }

  // ----- delta of delta -----

  /** The code of one delta of delta: a prefix for its range, then its low bits. */
  function DodBits(dod: I64): Bits {
    if dod == 0 then [false]
    else if -63 <= dod <= 64 then [true, false] + BitsOf(dod % 128, 7)
    else if -255 <= dod <= 256 then [true, true, false] + BitsOf(dod % 512, 9)
    else if -2047 <= dod <= 2048 then [true, true, true, false] + BitsOf(dod % 4096, 12)
    else [true, true, true, true] + BitsOf(dod % TWO_32, 32)
  }

  /** n bits read as a number, when that many are left. */
  function Take(b: Bits, n: nat): Option<nat> {
    if |b| < n then None else Some(Number(b[..n]))
  }

  /** What the decoder makes of a prefix of b: the value and the bits used. */
  function ReadDod(b: Bits): Option<(int, nat)> {
    if |b| < 1 then None
    else if !b[0] then Some((0, 1))
    else if |b| < 2 then None
    else if !b[1] then
      match Take(b[2..], 7)
      case None => None
      case Some(v) => Some((if v % 128 >= 64 then v - 128 else v, 9))
    else if |b| < 3 then None
    else if !b[2] then
      match Take(b[3..], 9)
      case None => None
      case Some(v) => Some((if v > 256 then v - 512 else v, 12))
    else if |b| < 4 then None
    else if !b[3] then
      match Take(b[4..], 12)
      case None => None
      case Some(v) => Some((if v > 2048 then v - 4096 else v, 16))
    else
      match Take(b[4..], 32)
      case None => None
      case Some(v) => Some((if v >= TWO_31 then v - TWO_32 else v, 36))
  }

  /** The range the code can carry: 32 bits, without 64, which reads back as -64. */
  predicate DodFits(dod: int) {
    -TWO_31 <= dod < TWO_31 && dod != 64
  }

  lemma TakeBits(v: nat, n: nat, rest: Bits)
    requires v < Pow2(n)
    ensures Take(BitsOf(v, n) + rest, n) == Some(v)
  {
    NumberOfBits(v, n);
    assert (BitsOf(v, n) + rest)[..n] == BitsOf(v, n);
    SmallMod(v, Pow2(n));
  }

  lemma SmallMod(v: nat, m: nat)
    requires v < m
    ensures v % m == v
  {}

  lemma Dod7(dod: I64, rest: Bits)
    requires -63 <= dod <= 64 && dod != 0
    ensures ReadDod(DodBits(dod) + rest) == Some((if dod == 64 then -64 else dod, 9))
  {
    Pow2Values();
    hide BitsOf, Take, Pow2;
    assert (DodBits(dod) + rest)[2..] == BitsOf(dod % 128, 7) + rest;
    TakeBits(dod % 128, 7, rest);
  }

  lemma Dod9(dod: I64, rest: Bits)
    requires -255 <= dod <= 256 && !(-63 <= dod <= 64)
    ensures ReadDod(DodBits(dod) + rest) == Some((dod, 12))
  {
    Pow2Values();
    hide BitsOf, Take, Pow2;
    assert (DodBits(dod) + rest)[3..] == BitsOf(dod % 512, 9) + rest;
    TakeBits(dod % 512, 9, rest);
  }

  lemma Dod12(dod: I64, rest: Bits)
    requires -2047 <= dod <= 2048 && !(-255 <= dod <= 256)
    ensures ReadDod(DodBits(dod) + rest) == Some((dod, 16))
  {
    Pow2Values();
    hide BitsOf, Take, Pow2;
    assert (DodBits(dod) + rest)[4..] == BitsOf(dod % 4096, 12) + rest;
    TakeBits(dod % 4096, 12, rest);
  }

  lemma Dod32(dod: I64, rest: Bits)
    requires !(-2047 <= dod <= 2048)
    ensures ReadDod(DodBits(dod) + rest) == Some((if dod % TWO_32 >= TWO_31 then dod % TWO_32 - TWO_32 else dod % TWO_32, 36))
  {
    Pow2Values();
    hide BitsOf, Take, Pow2;
    assert (DodBits(dod) + rest)[4..] == BitsOf(dod % TWO_32, 32) + rest;
    TakeBits(dod % TWO_32, 32, rest);
  }

  /** A delta of delta is read with the bits it was written in, and correctly exactly if it fits. */
  lemma DodRoundTrip(dod: I64, rest: Bits)
    ensures ReadDod(DodBits(dod) + rest).Some?
    ensures ReadDod(DodBits(dod) + rest).value.1 == |DodBits(dod)|
    ensures ReadDod(DodBits(dod) + rest).value.0 == dod <==> DodFits(dod)
    ensures -TWO_31 <= ReadDod(DodBits(dod) + rest).value.0 < TWO_31
  {
    if dod == 0 {
      assert (DodBits(dod) + rest)[0] == false;
    } else if -63 <= dod <= 64 {
      Dod7(dod, rest);
      hide ReadDod, BitsOf;
    } else if -255 <= dod <= 256 {
      Dod9(dod, rest);
      hide ReadDod, BitsOf;
    } else if -2047 <= dod <= 2048 {
      Dod12(dod, rest);
      hide ReadDod, BitsOf;
    } else {
      Dod32(dod, rest);
      hide ReadDod, BitsOf;
    }
  }

  // ----- values -----

  function Xor(a: Word, b: Word): Word {
    seq(64, i requires 0 <= i < 64 => a[i] != b[i])
  }

  lemma XorCancels(a: Word, b: Word)
    ensures Xor(b, Xor(a, b)) == a
    ensures Zero(Xor(a, b)) <==> a == b
  {
    if Zero(Xor(a, b)) {
      forall i | 0 <= i < 64 ensures a[i] == b[i] {
        assert !Xor(a, b)[i];
      }
    }
  }

  predicate Zero(b: Bits) {
    forall i | 0 <= i < |b| :: !b[i]
  }

  function LeadingZeros(b: Bits): (n: nat)
    ensures n <= |b|
  {
    if b == [] || b[0] then 0 else 1 + LeadingZeros(b[1..])
  }

  function TrailingZeros(b: Bits): (n: nat)
    ensures n <= |b|
  {
    if b == [] || b[|b| - 1] then 0 else 1 + TrailingZeros(b[..|b| - 1])
  }

  // ----- encoder and decoder states -----

  /** The fields that both sides carry along. */
  datatype State = State(hasTime: bool, prevTime: I64, prevDelta: I64,
                         hasValue: bool, prevValue: Word, leading: nat, trailing: nat)

  const ZERO: Word := seq(64, i => false)
  const START := State(false, 0, 0, false, ZERO, 0, 0)

  datatype Item = Time(ts: I64) | Value(bits: Word)
  datatype Kind = KindTime | KindValue

  function Delta(st: State, ts: I64): I64 {
    Wrap(ts - st.prevTime)
  }

  function Dod(st: State, ts: I64): I64 {
    Wrap(Delta(st, ts) - st.prevDelta)
  }

  function TimeBits(st: State, ts: I64): Bits {
    if !st.hasTime then BitsOf(if ts < 0 then ts + U64_LIMIT else ts, 64) else DodBits(Dod(st, ts))
  }

  function AfterTime(st: State, ts: I64): State {
    st.(hasTime := true, prevTime := ts, prevDelta := if st.hasTime then Delta(st, ts) else 0)
  }

  /** The window of the previous value covers the bits that differ. */
  predicate InWindow(st: State, x: Word) {
    LeadingZeros(x) >= st.leading && TrailingZeros(x) >= st.trailing
  }

  function ValueBits(st: State, v: Word): Bits {
    if !st.hasValue then v
    else
      var x := Xor(v, st.prevValue);
      if Zero(x) then [false]
      else if InWindow(st, x) && st.leading + st.trailing <= 64 then
        [true, false] + x[st.leading..64 - st.trailing]
      else
        var lead, trail := LeadingZeros(x), TrailingZeros(x);
        [true, true] + BitsOf(lead, 5) + (if lead + trail <= 64 then BitsOf(64 - lead - trail, 6) + x[lead..64 - trail] else [])
  }

  function AfterValue(st: State, v: Word): State {
    var x := Xor(v, st.prevValue);
    var kept := st.(hasValue := true, prevValue := v);
    if !st.hasValue || Zero(x) || InWindow(st, x) then kept
    else kept.(leading := LeadingZeros(x), trailing := TrailingZeros(x))
  }

  function ItemBits(st: State, item: Item): Bits {
    match item
    case Time(ts) => TimeBits(st, ts)
    case Value(v) => ValueBits(st, v)
  }

  function After(st: State, item: Item): State {
    match item
    case Time(ts) => AfterTime(st, ts)
    case Value(v) => AfterValue(st, v)
  }

  function Encode(st: State, items: seq<Item>): Bits
    decreases |items|
  {
    if items == [] then [] else ItemBits(st, items[0]) + Encode(After(st, items[0]), items[1..])
  }

  // ----- decoding -----

  function Signed(n: nat): I64 {
    Wrap(n)
  }

  function ReadTime(st: State, b: Bits): Option<(I64, nat)> {
    if !st.hasTime then
      match Take(b, 64)
      case None => None
      case Some(n) => Some((Signed(n), 64))
    else
      match ReadDod(b)
      case None => None
      case Some(d) => Some((Wrap(st.prevTime + Wrap(d.0 + st.prevDelta)), d.1))
  }

  /** The decoder state after a timestamp; its new delta is the one it added. */
  function DecodedTime(st: State, b: Bits): State
    requires ReadTime(st, b).Some?
  {
    var ts := ReadTime(st, b).value.0;
    st.(hasTime := true, prevTime := ts,
        prevDelta := if st.hasTime then Wrap(ReadDod(b).value.0 + st.prevDelta) else 0)
  }

  function Widen(m: Bits, trail: nat): Option<Word> {
    if |m| + trail <= 64 then Some(seq(64 - |m| - trail, i => false) + m + seq(trail, i => false)) else None
  }

  /** The differing bits, the bits used and the window to remember. */
  function ReadXor(st: State, b: Bits): Option<(Word, nat, nat, nat)>
    requires |b| >= 1
  {
    if |b| < 2 then None
    else if !b[1] then
      if st.leading + st.trailing > 64 || |b| < 2 + 64 - st.leading - st.trailing then None
      else
        match Widen(b[2..2 + 64 - st.leading - st.trailing], st.trailing)
        case None => None
        case Some(x) => Some((x, 2 + 64 - st.leading - st.trailing, st.leading, st.trailing))
    else
      match Take(b[2..], 5)
      case None => None
      case Some(lead) =>
        match Take(b[7..], 6)
        case None => None
        case Some(n) =>
          if lead + n > 64 || |b| < 13 + n then None
          else
            match Widen(b[13..13 + n], 64 - lead - n)
            case None => None
            case Some(x) => Some((x, 13 + n, lead, 64 - lead - n))
  }

  /** The value, the bits used and the window to remember. */
  function ReadValue(st: State, b: Bits): Option<(Word, nat, nat, nat)> {
    if !st.hasValue then
      if |b| < 64 then None else Some((b[..64], 64, st.leading, st.trailing))
    else if |b| < 1 then None
    else if !b[0] then Some((st.prevValue, 1, st.leading, st.trailing))
    else
      match ReadXor(st, b)
      case None => None
      case Some(x) => Some((Xor(st.prevValue, x.0), x.1, x.2, x.3))
  }

  function DecodedValue(st: State, b: Bits): State
    requires ReadValue(st, b).Some?
  {
    var r := ReadValue(st, b).value;
    st.(hasValue := true, prevValue := r.0, leading := r.2, trailing := r.3)
  }

  function Decode(st: State, kinds: seq<Kind>, b: Bits): Option<seq<Item>>
    decreases |kinds|
  {
    if kinds == [] then Some([])
    else
      match kinds[0]
      case KindTime =>
        (match ReadTime(st, b)
         case None => None
         case Some(t) =>
           if t.1 > |b| then None
           else
             match Decode(DecodedTime(st, b), kinds[1..], b[t.1..])
             case None => None
             case Some(rest) => Some([Time(t.0)] + rest))
      case KindValue =>
        match ReadValue(st, b)
        case None => None
        case Some(v) =>
          if v.1 > |b| then None
          else
            match Decode(DecodedValue(st, b), kinds[1..], b[v.1..])
            case None => None
            case Some(rest) => Some([Value(v.0)] + rest)
  }

  function Kinds(items: seq<Item>): (ks: seq<Kind>)
    ensures |ks| == |items|
  {
    seq(|items|, i requires 0 <= i < |items| => if items[i].Time? then KindTime else KindValue)
  }

  // ----- values always survive -----

  lemma FirstValue(st: State, v: Word, rest: Bits)
    requires !st.hasValue
    ensures ValueBits(st, v) == v && ReadValue(st, v + rest) == Some((v, 64, st.leading, st.trailing))
  {
    assert (v + rest)[..64] == v;
  }

  lemma SameValue(st: State, rest: Bits)
    requires st.hasValue
    ensures ValueBits(st, st.prevValue) == [false]
    ensures ReadValue(st, [false] + rest) == Some((st.prevValue, 1, st.leading, st.trailing))
  {
    hide BitsOf, LeadingZeros, TrailingZeros;
    XorCancels(st.prevValue, st.prevValue);
  }

  lemma ChangedValue(st: State, v: Word, rest: Bits)
    requires st.hasValue && st.leading == 0 && st.trailing == 0 && v != st.prevValue
    ensures ValueBits(st, v) == [true, false] + Xor(v, st.prevValue)
    ensures ReadValue(st, ValueBits(st, v) + rest) == Some((v, 66, 0, 0))
  {
    WindowStays(st, Value(v));
    hide ValueBits, BitsOf, After;
    var x := Xor(v, st.prevValue);
    XorCancels(v, st.prevValue);
    hide Xor, Zero;
    var b := [true, false] + x + rest;
    assert b[2..66] == x;
    WidenAll(x);
    hide Widen;
    assert b[0] && !b[1] && ReadXor(st, b) == Some((x, 66, 0, 0));
  }

  /** The window never leaves (0, 0): with it, every difference is in the window. */
  lemma WindowStays(st: State, item: Item)
    requires st.leading == 0 && st.trailing == 0
    ensures After(st, item).leading == 0 && After(st, item).trailing == 0
    ensures item.Value? && st.hasValue && item.bits != st.prevValue ==>
      ValueBits(st, item.bits) == [true, false] + Xor(item.bits, st.prevValue)
  {
    if item.Value? {
      XorCancels(item.bits, st.prevValue);
      var x := Xor(item.bits, st.prevValue);
      assert x[0..64] == x;
    }
  }

  lemma ValueRoundTrip(st: State, v: Word, rest: Bits)
    requires st.leading == 0 && st.trailing == 0
    ensures var b := ValueBits(st, v) + rest;
      && ReadValue(st, b) == Some((v, |ValueBits(st, v)|, 0, 0))
      && DecodedValue(st, b) == AfterValue(st, v)
      && b[|ValueBits(st, v)|..] == rest
  {
    WindowStays(st, Value(v));
    hide ValueBits, ReadValue, BitsOf, LeadingZeros, TrailingZeros, Xor, Zero;
    var bits := ValueBits(st, v);
    assert (bits + rest)[|bits|..] == rest;
    if !st.hasValue {
      FirstValue(st, v, rest);
    } else if v == st.prevValue {
      SameValue(st, rest);
    } else {
      ChangedValue(st, v, rest);
    }
  }

  lemma WidenAll(x: Word)
    ensures Widen(x, 0) == Some(x)
  {
    assert seq(0, i => false) + x + seq(0, i => false) == x;
  }

  // ----- timestamps survive exactly when every delta of delta fits -----

  lemma TimeRoundTrip(st: State, ts: I64, rest: Bits)
    ensures var b := TimeBits(st, ts) + rest;
      && ReadTime(st, b).Some? && ReadTime(st, b).value.1 == |TimeBits(st, ts)| && b[|TimeBits(st, ts)|..] == rest
      && (ReadTime(st, b).value.0 == ts <==> !st.hasTime || DodFits(Dod(st, ts)))
      && (ReadTime(st, b).value.0 == ts ==> DecodedTime(st, b) == AfterTime(st, ts))
  {
    var bits := TimeBits(st, ts);
    var b := bits + rest;
    assert b[|bits|..] == rest;
    if !st.hasTime {
      Pow2Values();
      var n := if ts < 0 then ts + U64_LIMIT else ts;
      hide BitsOf, Take, Pow2;
      TakeBits(n, 64, rest);
    } else {
      DodRoundTrip(Dod(st, ts), rest);
      hide ReadDod, DodBits;
      DodDecides(st, ts, ReadDod(b).value.0);
    }
  }

  lemma WrapForm(x: int) returns (q: int)
    ensures Wrap(x) == x - U64_LIMIT * q
  {
    q := (x + SIGN_BIT) / U64_LIMIT;
  }

  /** Wrapping arithmetic loses nothing: the right delta of delta, and only it, gives ts back. */
  lemma DodDecides(st: State, ts: I64, d: int)
    requires -TWO_31 <= d < TWO_31
    ensures Wrap(st.prevTime + Wrap(d + st.prevDelta)) == ts <==> d == Dod(st, ts)
    ensures d == Dod(st, ts) ==> Wrap(d + st.prevDelta) == Delta(st, ts)
  {
    var q1 := WrapForm(d + st.prevDelta);
    var q2 := WrapForm(st.prevTime + Wrap(d + st.prevDelta));
    var q3 := WrapForm(ts - st.prevTime);
    var q4 := WrapForm(Delta(st, ts) - st.prevDelta);
    hide Wrap;
    var back, dod := Wrap(st.prevTime + Wrap(d + st.prevDelta)), Dod(st, ts);
    assert back - ts == d - dod - U64_LIMIT * (q1 + q2 + q3 + q4);
    assert Wrap(d + st.prevDelta) - Delta(st, ts) == d - dod - U64_LIMIT * (q1 + q4);
  }

  /** Every delta of delta in the stream fits. */
  ghost predicate AllFit(st: State, items: seq<Item>)
    decreases |items|
  {
    items == [] ||
    ((items[0].Time? && st.hasTime ==> DodFits(Dod(st, items[0].ts))) && AllFit(After(st, items[0]), items[1..]))
  }

  /** An interleaved stream decodes to itself, whatever follows it, exactly when every wrapped
      delta of delta fits 32 bits and is not 64; its values are never at risk. */
  lemma {:induction false} RoundTripIff(st: State, items: seq<Item>, rest: Bits)
    requires st.leading == 0 && st.trailing == 0
    ensures Decode(st, Kinds(items), Encode(st, items) + rest) == Some(items) <==> AllFit(st, items)
    decreases |items|
  {
    if items != [] {
      var head, later := items[0], items[1..];
      var tail := Encode(After(st, head), later) + rest;
      EncodeFirst(st, items, rest);
      WindowStays(st, head);
      RoundTripIff(After(st, head), later, rest);
      hide Encode, Decode, Kinds, DodFits, Dod, TimeBits, ValueBits, AfterTime, AfterValue;
      match head
      case Time(ts) => TimeHead(st, ts, items, tail);
      case Value(v) => ValueHead(st, v, items, tail);
    }
  }

  /** Two timestamps 64 apart are lost: seven bits read 64 as -64. */
  lemma SixtyFourIsLost(rest: Bits)
    ensures Decode(START, [KindTime, KindTime], Encode(START, [Time(0), Time(64)]) + rest) != Some([Time(0), Time(64)])
  {
    var items := [Time(0), Time(64)];
    RoundTripIff(START, items, rest);
    SixtyFour();
    hide Decode, Encode, AllFit;
    assert Kinds(items) == [KindTime, KindTime];
  }

  lemma SixtyFour()
    ensures !AllFit(START, [Time(0), Time(64)])
  {
    assert [Time(0), Time(64)][1..] == [Time(64)];
    assert Dod(After(START, Time(0)), 64) == 64;
    assert !AllFit(After(START, Time(0)), [Time(64)]);
  }

  lemma EncodeFirst(st: State, items: seq<Item>, rest: Bits)
    requires items != []
    ensures Encode(st, items) + rest == ItemBits(st, items[0]) + (Encode(After(st, items[0]), items[1..]) + rest)
  {
    hide ItemBits, After;
  }

  lemma ValueHead(st: State, v: Word, items: seq<Item>, tail: Bits)
    requires st.leading == 0 && st.trailing == 0 && items != [] && items[0] == Value(v)
    ensures Decode(st, Kinds(items), ValueBits(st, v) + tail) == Some(items)
       <==> Decode(AfterValue(st, v), Kinds(items[1..]), tail) == Some(items[1..])
  {
    ValueRoundTrip(st, v, tail);
    hide ReadValue, ValueBits, AfterValue, DecodedValue;
    assert Kinds(items)[0] == KindValue && Kinds(items)[1..] == Kinds(items[1..]);
    assert items == [items[0]] + items[1..];
  }

  lemma TimeHead(st: State, ts: I64, items: seq<Item>, tail: Bits)
    requires items != [] && items[0] == Time(ts)
    ensures Decode(st, Kinds(items), TimeBits(st, ts) + tail) == Some(items)
       <==> (st.hasTime ==> DodFits(Dod(st, ts))) && Decode(AfterTime(st, ts), Kinds(items[1..]), tail) == Some(items[1..])
  {
    TimeRoundTrip(st, ts, tail);
    hide ReadTime, TimeBits, AfterTime, DecodedTime, DodFits, Dod;
    assert Kinds(items)[0] == KindTime && Kinds(items)[1..] == Kinds(items[1..]);
    assert items == [items[0]] + items[1..];
  }
}
