/** Whole compressed streams, told by their timestamps and values alone: the bits that each item
    adds, and exactly which streams decode to themselves. */
module GorillaStream {
  import opened Wrappers
  import opened Bytes
  import opened Bits
  import opened GorillaSpec

  // ----- items one by one -----

  ghost function Final(st: State, items: seq<Item>): State
    decreases |items|
  {
    if items == [] then st else Final(After(st, items[0]), items[1..])
  }

  lemma {:induction false} EncodeSnoc(st: State, items: seq<Item>, item: Item)
    ensures Encode(st, items + [item]) == Encode(st, items) + ItemBits(Final(st, items), item)
    ensures Final(st, items + [item]) == After(Final(st, items), item)
    decreases |items|
  {
    hide ItemBits, After;
    if items == [] {
      assert items + [item] == [item];
      assert Encode(After(st, item), []) == [];
    } else {
      assert (items + [item])[1..] == items[1..] + [item] && (items + [item])[0] == items[0];
      EncodeSnoc(After(st, items[0]), items[1..], item);
    }
  }

  lemma {:induction false} AllFitSnoc(st: State, items: seq<Item>, item: Item)
    ensures AllFit(st, items + [item]) <==>
      AllFit(st, items) && (item.Time? && Final(st, items).hasTime ==> DodFits(Dod(Final(st, items), item.ts)))
    decreases |items|
  {
    hide DodFits, Dod, After;
    if items == [] {
      assert items + [item] == [item];
      assert AllFit(After(st, item), []);
    } else {
      assert (items + [item])[1..] == items[1..] + [item] && (items + [item])[0] == items[0];
      AllFitSnoc(After(st, items[0]), items[1..], item);
    }
  }

  // ----- what a stream holds -----

  /** The timestamps of a stream, in order. */
  function Times(items: seq<Item>): seq<int> {
    if items == [] then []
    else
      var n := |items| - 1;
      Times(items[..n]) + if items[n].Time? then [items[n].ts] else []
  }

  function Values(items: seq<Item>): seq<Word> {
    if items == [] then []
    else
      var n := |items| - 1;
      Values(items[..n]) + if items[n].Value? then [items[n].bits] else []
  }

  lemma HoldsSnoc(items: seq<Item>, item: Item)
    ensures Times(items + [item]) == if item.Time? then Times(items) + [item.ts] else Times(items)
    ensures Values(items + [item]) == if item.Value? then Values(items) + [item.bits] else Values(items)
  {
    assert (items + [item])[..|items|] == items;
    assert Times(items) + [] == Times(items) && Values(items) + [] == Values(items);
  }

  /** The state of encoder and decoder: the last timestamp, the last difference and the last value. */
  ghost predicate Carries(st: State, t: seq<int>, v: seq<Word>) {
    && st.leading == 0 && st.trailing == 0
    && (st.hasTime <==> t != []) && (t != [] ==> st.prevTime == t[|t| - 1])
    && st.prevDelta == (if |t| < 2 then 0 else Wrap(t[|t| - 1] - t[|t| - 2]))
    && (st.hasValue <==> v != []) && (v != [] ==> st.prevValue == v[|v| - 1])
  }

  lemma CarriesAfter(st: State, t: seq<int>, v: seq<Word>, item: Item)
    requires Carries(st, t, v)
    ensures Carries(After(st, item), if item.Time? then t + [item.ts] else t, if item.Value? then v + [item.bits] else v)
  {
    hide Wrap, Xor, Zero, LeadingZeros, TrailingZeros, ValueBits;
    WindowStays(st, item);
  }

  lemma {:induction false} FinalCarries(items: seq<Item>)
    ensures Carries(Final(START, items), Times(items), Values(items))
  {
    hide Carries, After;
    if items == [] {
      NothingCarried();
    } else {
      hide Final, Times, Values, Encode;
      var n := |items| - 1;
      var before, item := items[..n], items[n];
      assert items == before + [item];
      FinalCarries(before);
      EncodeSnoc(START, before, item);
      HoldsSnoc(before, item);
      CarriesAfter(Final(START, before), Times(before), Values(before), item);
    }
  }

  lemma NothingCarried()
    ensures Carries(START, [], [])
  {}

  // ----- the second difference -----

  /** The difference of two wrapped differences is the wrapped second difference. */
  lemma WrapTwice(a: int, b: int)
    ensures Wrap(Wrap(a) - Wrap(b)) == Wrap(a - b)
  {
    var q := WrapForm(a);
    var r := WrapForm(b);
    var x := WrapForm(Wrap(a) - Wrap(b));
    var y := WrapForm(a - b);
    hide Wrap;
    assert Wrap(Wrap(a) - Wrap(b)) - Wrap(a - b) == U64_LIMIT * (y - x - q + r);
  }

  /** The number coded for timestamp i of a stream. */
  function Second(t: seq<int>, i: nat): I64
    requires 1 <= i < |t|
  {
    if i == 1 then Wrap(t[1] - t[0]) else Wrap(t[i] - 2 * t[i - 1] + t[i - 2])
  }

  lemma DodIsSecond(st: State, t: seq<int>, v: seq<Word>, ts: I64)
    requires Carries(st, t, v) && t != []
    ensures Dod(st, ts) == Second(t + [ts], |t|)
  {
    var n := |t|;
    if n == 1 {
      WrapTwice(ts - t[0], 0);
    } else {
      WrapTwice(ts - t[n - 1], t[n - 1] - t[n - 2]);
    }
  }

  // ----- which streams survive -----

  lemma {:induction false} AllFitIff(items: seq<Item>)
    ensures AllFit(START, items) <==> forall i | 1 <= i < |Times(items)| :: DodFits(Second(Times(items), i))
  {
    if items != [] {
      var n := |items| - 1;
      var before, item := items[..n], items[n];
      assert items == before + [item];
      hide AllFit, Times, Values, DodFits, Second, Dod, Final, Carries;
      AllFitIff(before);
      AllFitSnoc(START, before, item);
      HoldsSnoc(before, item);
      FinalCarries(before);
      LastSecond(before, item);
    }
  }

  /** One more timestamp adds one second difference and leaves the others. */
  lemma LastSecond(before: seq<Item>, item: Item)
    ensures var t, st := Times(before), Final(START, before);
      && (st.hasTime <==> t != [])
      && (item.Time? && t != [] ==> Dod(st, item.ts) == Second(t + [item.ts], |t|))
      && (item.Time? ==> forall i | 1 <= i < |t| :: Second(t + [item.ts], i) == Second(t, i))
  {
    hide Times, Values, Dod, Final;
    FinalCarries(before);
    var t := Times(before);
    if item.Time? && t != [] {
      DodIsSecond(Final(START, before), t, Values(before), item.ts);
    }
  }

  /** The first difference and every later second difference, wrapped to 64 bits, fit 32 bits and
      are not 64. */
  ghost predicate SecondsFit(t: seq<int>) {
    && (|t| >= 2 ==> -0x8000_0000 <= Wrap(t[1] - t[0]) < 0x8000_0000 && Wrap(t[1] - t[0]) != 64)
    && forall i | 2 <= i < |t| ::
         var d := Wrap(t[i] - 2 * t[i - 1] + t[i - 2]); -0x8000_0000 <= d < 0x8000_0000 && d != 64
  }

  /** A stream decodes to itself, whatever follows it, exactly if its timestamps do not turn too
      sharply; its values are never at risk. */
  lemma StreamIff(items: seq<Item>, rest: Bits)
    ensures Decode(START, Kinds(items), Encode(START, items) + rest) == Some(items) <==> SecondsFit(Times(items))
  {
    hide Decode, Encode, AllFit, Times, Kinds, DodFits, Second, SecondsFit;
    RoundTripIff(START, items, rest);
    AllFitIff(items);
    SecondsFitIff(Times(items));
  }

  lemma SecondsFitIff(t: seq<int>)
    ensures (forall i | 1 <= i < |t| :: DodFits(Second(t, i))) <==> SecondsFit(t)
  {
    hide Wrap;
    if SecondsFit(t) {
      forall i | 1 <= i < |t| ensures DodFits(Second(t, i)) {
        var d := if i == 1 then Wrap(t[1] - t[0]) else Wrap(t[i] - 2 * t[i - 1] + t[i - 2]);
        assert -0x8000_0000 <= d < 0x8000_0000 && d != 64;
      }
    }
    if forall i | 1 <= i < |t| :: DodFits(Second(t, i)) {
      assert |t| >= 2 ==> DodFits(Second(t, 1));
      forall i | 2 <= i < |t| ensures DodFits(Wrap(t[i] - 2 * t[i - 1] + t[i - 2])) {
        assert DodFits(Second(t, i));
      }
    }
  }

  // ----- what each item adds -----

  /** A first timestamp is written as it is; a later one by the second difference it makes: one bit
      for none, else a prefix for its range and its low bits. */
  lemma TimeCode(items: seq<Item>, ts: I64) returns (code: Bits)
    ensures Encode(START, items + [Time(ts)]) == Encode(START, items) + code
    ensures Times(items) == [] ==> code == BitsOf(ts % 0x1_0000_0000_0000_0000, 64)
    ensures var t := Times(items) + [ts]; var n := |t| - 1;
      n >= 1 ==>
        var d := if n == 1 then Wrap(t[1] - t[0]) else Wrap(t[n] - 2 * t[n - 1] + t[n - 2]);
        && (d == 0 ==> code == [false])
        && (d != 0 && -63 <= d <= 64 ==> code == [true, false] + BitsOf(d % 128, 7))
        && (!(-63 <= d <= 64) && -255 <= d <= 256 ==> code == [true, true, false] + BitsOf(d % 512, 9))
        && (!(-255 <= d <= 256) && -2047 <= d <= 2048 ==> code == [true, true, true, false] + BitsOf(d % 4096, 12))
        && (!(-2047 <= d <= 2048) ==> code == [true, true, true, true] + BitsOf(d % 0x1_0000_0000, 32))
  {
    hide Encode, Times, Values, BitsOf, Final, Wrap;
    EncodeSnoc(START, items, Time(ts));
    FinalCarries(items);
    var st, t := Final(START, items), Times(items);
    code := ItemBits(st, Time(ts));
    if t != [] {
      hide Dod;
      DodIsSecond(st, t, Values(items), ts);
    }
  }

  /** A first value is written as it is, an equal one takes one bit, and any other one two bits and
      all 64 bits of its difference from the last. */
  lemma ValueCode(items: seq<Item>, v: Word) returns (code: Bits)
    ensures Encode(START, items + [Value(v)]) == Encode(START, items) + code
    ensures var vs := Values(items);
      && (vs == [] ==> code == v)
      && (vs != [] && v == vs[|vs| - 1] ==> code == [false])
      && (vs != [] && v != vs[|vs| - 1] ==>
            && |code| == 66 && code[0] && !code[1]
            && forall i | 0 <= i < 64 :: code[2 + i] <==> v[i] != vs[|vs| - 1][i])
  {
    hide Encode, Times, Values, BitsOf, Final, ValueBits;
    EncodeSnoc(START, items, Value(v));
    FinalCarries(items);
    var st := Final(START, items);
    code := ItemBits(st, Value(v));
    if !st.hasValue {
      FirstValue(st, v, []);
    } else if v == st.prevValue {
      SameValue(st, []);
    } else {
      ChangedValue(st, v, []);
    }
  }
}
