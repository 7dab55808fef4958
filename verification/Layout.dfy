/** The bytes on disk, field by field at their offsets: log records, free-list pointers, the pages of
    the key-value store, row keys, row values and metric points. */
module Layout {
  import opened Wrappers
  import opened Bytes
  import opened Bits
  import opened SortedEntries
  import opened Tree
  import opened NodeCodec
  import RowKey
  import RowValue
  import Wal
  import Disk
  import Overflow
  import MetricsCodec

  // ----- integers -----

  lemma DivTwice(n: nat, p: nat)
    requires p >= 1
    ensures n / 256 / p == n / (256 * p)
  {
    var q, r := n / 256 / p, n / 256 % p;
    assert n / 256 == q * p + r;
    assert n == 256 * (q * p) + (256 * r + n % 256);
    assert 256 * (q * p) == q * (256 * p);
    assert 256 * r + n % 256 < 256 * p;
    QuotientUnique(n, 256 * p, q, 256 * r + n % 256);
  }

  lemma QuotientUnique(n: nat, m: nat, q: nat, r: nat)
    requires m >= 1 && n == q * m + r && r < m
    ensures n / m == q
  {
    var d := n / m - q;
    assert n == (n / m) * m + n % m;
    assert (n / m) * m == q * m + d * m;
    if d != 0 { AtLeastOnce(d, m); }
  }

  /** The most significant byte comes first. */
  lemma {:induction false} BigEndianAt(n: nat, width: nat, i: nat)
    requires i < width
    ensures BigEndian(n, width)[i] == n / Pow256(width - 1 - i) % 256
  {
    if i < width - 1 {
      BigEndianAt(n / 256, width - 1, i);
      DivTwice(n, Pow256(width - 2 - i));
    }
  }

  /** The least significant byte comes first. */
  lemma {:induction false} LittleEndianAt(n: nat, width: nat, i: nat)
    requires i < width
    ensures MetricsCodec.LittleEndian(n, width)[i] == n / Pow256(i) % 256
  {
    if i > 0 {
      LittleEndianAt(n / 256, width - 1, i - 1);
      DivTwice(n, Pow256(i - 1));
    }
  }

  // ----- the log -----

  /** A page write takes 4108 bytes: transaction, page, length and body, and a checksum over them. */
  lemma DataRecord(crc: Wal.Crc, txn: U64, page: U64, body: Bytes)
    requires |body| == 4084
    ensures var b := Wal.Encode(crc, Wal.Data(txn, page, body));
      && |b| == 4108 && b[0..8] == BigEndian(txn, 8) && b[8..16] == BigEndian(page, 8) && b[16..20] == BigEndian(4084, 4)
      && b[20..4104] == body && b[4104..] == BigEndian(crc(b[..4104]), 4)
  {
    hide BigEndian;
    var frame := Wal.Frame(txn, page, body);
    Halves(frame, Put32(crc(frame)));
    var b := Wal.Encode(crc, Wal.Data(txn, page, body));
    assert b[..4104] == frame;
    assert frame[0..8] == Put64(txn) && frame[8..16] == Put64(page) && frame[16..20] == Put32(|body|) && frame[20..4104] == body;
    assert b[0..8] == frame[0..8] && b[8..16] == frame[8..16] && b[16..20] == frame[16..20] && b[20..4104] == frame[20..4104];
  }

  /** An end marker takes 24: the transaction, a page of all ones and a length of zero. */
  lemma EndMarker(crc: Wal.Crc, txn: U64)
    ensures var b := Wal.Encode(crc, Wal.Eot(txn));
      && |b| == 24 && b[0..8] == BigEndian(txn, 8) && b[8..16] == BigEndian(0xFFFF_FFFF_FFFF_FFFF, 8) && b[16..20] == BigEndian(0, 4)
      && b[20..] == BigEndian(crc(b[..20]), 4)
  {
    hide BigEndian;
    var frame := Wal.Frame(txn, Wal.EOT_PAGE, []);
    Halves(frame, Put32(crc(frame)));
    var b := Wal.Encode(crc, Wal.Eot(txn));
    assert b[..20] == frame;
    assert frame[0..8] == Put64(txn) && frame[8..16] == Put64(Wal.EOT_PAGE) && frame[16..20] == Put32(0);
    assert b[0..8] == frame[0..8] && b[8..16] == frame[8..16] && b[16..20] == frame[16..20];
  }

  /** A free page starts with the number of the next one, all ones at the end, and holds nothing else. */
  lemma FreePointer(next: nat)
    requires next <= 0xFFFF_FFFF_FFFF_FFFF
    ensures var b := Disk.PointerBody(next);
      |b| == 4084 && b[0..8] == BigEndian(next, 8) && forall i | 8 <= i < 4084 :: b[i] == 0
    ensures SENTINEL == 0xFFFF_FFFF_FFFF_FFFF
  {
    hide BigEndian;
  }

  // ----- pages of the key-value store -----

  lemma MetaLayout(root: U64)
    ensures var b := EncodeMeta(root);
      |b| == 4084 && b[0] == 3 && b[1..9] == BigEndian(root, 8) && forall i | 9 <= i < 4084 :: b[i] == 0
  {
    hide BigEndian;
  }

  lemma {:induction false} LeafSlotAt(es: seq<Entry>, i: nat)
    requires i < |es| && forall j | 0 <= j < |es| :: |es[j].key| <= 63 && |es[j].val| <= 16777216
    ensures |LeafSlots(es)| == 580 * |es| && LeafSlots(es)[580 * i..580 * i + 580] == LeafSlot(es[i])
  {
    hide LeafSlot;
    var a, b := LeafSlot(es[0]), LeafSlots(es[1..]);
    if i == 0 {
      Halves(a, b);
    } else {
      LeafSlotAt(es[1..], i - 1);
      assert (a + b)[580 * i..580 * i + 580] == b[580 * (i - 1)..580 * (i - 1) + 580];
    }
  }

  /** A leaf slot: key length, key padded to 63 bytes, value length and value padded to 512; for a
      longer value, whose first eight bytes name its chain, the length without these, and its first
      512 bytes. */
  lemma LeafSlotLayout(e: Entry)
    requires |e.key| <= 63 && |e.val| <= 16777216
    ensures var b, n := LeafSlot(e), |e.val|;
      && |b| == 580 && b[0] == |e.key| && b[1..1 + |e.key|] == e.key && (forall i | 1 + |e.key| <= i < 64 :: b[i] == 0)
      && (n <= 512 ==> b[64..68] == BigEndian(n, 4) && b[68..68 + n] == e.val && forall i | 68 + n <= i < 580 :: b[i] == 0)
      && (n > 512 ==> b[64..68] == BigEndian(n - 8, 4) && b[68..580] == e.val[..512])
  {
    hide BigEndian;
    LeafSlotParts(e);
    var b, v, n := LeafSlot(e), EncodeValue(e.val), |e.val|;
    assert forall i | 0 <= i < 516 :: b[64 + i] == b[64..][i] == v[i];
    if n > 512 {
      assert e.val[..8] + e.val[8..512] == e.val[..512];
      assert v == Put32(n - 8) + e.val[..512];
      Halves(Put32(n - 8), e.val[..512]);
      assert b[64..68] == v[..4] && b[68..580] == v[4..];
    } else {
      assert v[..4] == Put32(n) && v[4..4 + n] == e.val;
      assert b[64..68] == v[..4] && b[68..68 + n] == v[4..4 + n];
    }
  }

  /** A leaf is accepted exactly with at most 7 entries in strict key order, keys up to 63 bytes and
      values up to 16 MiB; it then has its type, count, next leaf and a slot of 580 bytes each. */
  lemma LeafLayout(es: seq<Entry>, next: U64)
    ensures EncodeLeaf(es, next).Some? <==>
      && |es| <= 7 && (forall i | 1 <= i < |es| :: LexLess(es[i - 1].key, es[i].key))
      && (forall i | 0 <= i < |es| :: |es[i].key| <= 63 && |es[i].val| <= 16777216)
    ensures EncodeLeaf(es, next).Some? ==> var b := EncodeLeaf(es, next).value;
      && |b| == 4084 && b[0] == 1 && b[1..3] == BigEndian(|es|, 2) && b[3..11] == BigEndian(next, 8)
      && (forall i | 0 <= i < |es| :: b[11 + 580 * i..11 + 580 * i + 580] == LeafSlot(es[i]))
      && (forall i | 11 + 580 * |es| <= i < 4084 :: b[i] == 0)
  {
    hide BigEndian, LeafSlots, LeafSlot, LexLess;
    var ks := Keys(es);
    assert Ascends(ks) <==> forall i | 1 <= i < |es| :: LexLess(es[i - 1].key, es[i].key) by {
      if Ascends(ks) {
        forall i | 1 <= i < |es| ensures LexLess(es[i - 1].key, es[i].key) { assert LexLess(ks[i - 1], ks[i]); }
      }
    }
    if EncodeLeaf(es, next).Some? {
      var b, head := EncodeLeaf(es, next).value, [TYPE_LEAF] + Put16(|es|) + Put64(next);
      var slots, pad := LeafSlots(es), Zeros(SLOT_SPACE - LEAF_SLOT_SIZE * |es|);
      assert b == head + slots + pad && |head| == 11;
      assert head[1..3] == Put16(|es|) && head[3..11] == Put64(next);
      assert b[1..3] == head[1..3] && b[3..11] == head[3..11];
      forall i | 0 <= i < |es| ensures b[11 + 580 * i..11 + 580 * i + 580] == LeafSlot(es[i]) {
        LeafSlotAt(es, i);
        InMiddle(head, slots, pad, 580 * i, 580);
      }
    }
  }

  lemma InMiddle(a: Bytes, m: Bytes, c: Bytes, i: nat, n: nat)
    requires i + n <= |m|
    ensures (a + m + c)[|a| + i..|a| + i + n] == m[i..i + n]
  {}

  lemma {:induction false} InternalSlotAt(keys: seq<Key>, ptrs: seq<U64>, i: nat)
    requires i < |keys| == |ptrs| && forall j | 0 <= j < |keys| :: |keys[j]| <= 63
    ensures |InternalSlots(keys, ptrs)| == 72 * |keys|
    ensures InternalSlots(keys, ptrs)[72 * i..72 * i + 72] == InternalSlot(keys[i], ptrs[i])
  {
    hide InternalSlot;
    var a, b := InternalSlot(keys[0], ptrs[0]), InternalSlots(keys[1..], ptrs[1..]);
    if i == 0 {
      Halves(a, b);
    } else {
      InternalSlotAt(keys[1..], ptrs[1..], i - 1);
      assert (a + b)[72 * i..72 * i + 72] == b[72 * (i - 1)..72 * (i - 1) + 72];
    }
  }

  lemma InternalSlotLayout(key: Key, ptr: U64)
    requires |key| <= 63
    ensures var b := InternalSlot(key, ptr);
      && |b| == 72 && b[0] == |key| && b[1..1 + |key|] == key && (forall i | 1 + |key| <= i < 64 :: b[i] == 0)
      && b[64..72] == BigEndian(ptr, 8)
  {
    hide BigEndian;
    Halves([|key|] + Fixed(key, 63), Put64(ptr));
  }

  /** An internal node is accepted exactly with one child more than keys, at most 56 keys in strict
      order and keys up to 63 bytes; it then has its type, count, first child and a slot of 72 bytes
      for each key and the child behind it. */
  lemma InternalLayout(ptrs: seq<U64>, keys: seq<Key>)
    ensures EncodeInternal(ptrs, keys).Some? <==>
      && |ptrs| == |keys| + 1 && |keys| <= 56 && (forall i | 1 <= i < |keys| :: LexLess(keys[i - 1], keys[i]))
      && (forall i | 0 <= i < |keys| :: |keys[i]| <= 63)
    ensures EncodeInternal(ptrs, keys).Some? ==> var b := EncodeInternal(ptrs, keys).value;
      && |b| == 4084 && b[0] == 2 && b[1..3] == BigEndian(|keys|, 2) && b[3..11] == BigEndian(ptrs[0], 8)
      && (forall i | 0 <= i < |keys| :: b[11 + 72 * i..11 + 72 * i + 72] == InternalSlot(keys[i], ptrs[i + 1]))
      && (forall i | 11 + 72 * |keys| <= i < 4084 :: b[i] == 0)
  {
    hide BigEndian, InternalSlots, InternalSlot, LexLess;
    if EncodeInternal(ptrs, keys).Some? {
      var b, head := EncodeInternal(ptrs, keys).value, [TYPE_INTERNAL] + Put16(|keys|) + Put64(ptrs[0]);
      var slots, pad := InternalSlots(keys, ptrs[1..]), Zeros(SLOT_SPACE - INTERNAL_SLOT_SIZE * |keys|);
      assert b == head + slots + pad && |head| == 11;
      assert head[1..3] == Put16(|keys|) && head[3..11] == Put64(ptrs[0]);
      assert b[1..3] == head[1..3] && b[3..11] == head[3..11];
      forall i | 0 <= i < |keys| ensures b[11 + 72 * i..11 + 72 * i + 72] == InternalSlot(keys[i], ptrs[i + 1]) {
        InternalSlotAt(keys, ptrs[1..], i);
        InMiddle(head, slots, pad, 72 * i, 72);
      }
    }
  }

  // ----- what reads as such a page -----

  /** A leaf slot reads exactly with a key length up to 63 and a value length up to 16 MiB; above 512
      bytes the value is 504 bytes of it and the page its chain starts on. */
  lemma LeafSlotReads(b: Bytes)
    requires |b| == 580
    ensures DecodeLeafSlot(b).Some? <==> b[0] <= 63 && FromBigEndian(b[64..68]) <= 16777216
    ensures DecodeLeafSlot(b).Some? ==> var (key, ref) := DecodeLeafSlot(b).value; var n := FromBigEndian(b[64..68]);
      && key == b[1..1 + b[0]]
      && if n <= 512 then ref == Inline(b[68..68 + n])
         else ref.Overflow? && ref.total == n && ref.prefix == b[76..580] && ref.page == FromBigEndian(b[68..76])
  {
    hide FromBigEndian;
    var v := b[64..];
    assert v[..4] == b[64..68] && v[4..12] == b[68..76] && v[12..] == b[76..580];
    var n := Get32(v[..4]);
    if n <= 512 { assert v[4..4 + n] == b[68..68 + n]; }
  }

  lemma {:induction false} LeafSlotsRead(b: Bytes, count: nat)
    requires |b| >= 580 * count
    ensures DecodeLeafSlots(b, count).Some? <==> forall i | 0 <= i < count :: DecodeLeafSlot(SlotAt(b, 580, i)).Some?
    ensures DecodeLeafSlots(b, count).Some? ==>
      && |DecodeLeafSlots(b, count).value| == count
      && forall i | 0 <= i < count :: DecodeLeafSlot(SlotAt(b, 580, i)) == Some(DecodeLeafSlots(b, count).value[i])
  {
    hide DecodeLeafSlot;
    if count > 0 {
      var rest := b[580..];
      LeafSlotsRead(rest, count - 1);
      assert SlotAt(b, 580, 0) == b[..580];
      forall i | 0 <= i < count - 1 ensures SlotAt(rest, 580, i) == SlotAt(b, 580, i + 1) {}
      forall i | 1 <= i < count ensures SlotAt(b, 580, i) == SlotAt(rest, 580, i - 1) {}
    }
  }

  /** The i-th of the slots of this width. */
  ghost function SlotAt(b: Bytes, width: nat, i: nat): (r: Bytes)
    requires width * (i + 1) <= |b|
    ensures |r| == width
  {
    b[width * i..width * i + width]
  }

  /** Exactly what reads as a leaf, and the entries and the next leaf it has. */
  lemma LeafReads(b: Bytes)
    ensures DecodeLeaf(b).Some? <==>
      && |b| == 4084 && b[0] == 1 && FromBigEndian(b[1..3]) <= 7
      && forall i | 0 <= i < FromBigEndian(b[1..3]) :: DecodeLeafSlot(SlotAt(b[11..], 580, i)).Some?
    ensures DecodeLeaf(b).Some? ==>
      && |DecodeLeaf(b).value.0| == FromBigEndian(b[1..3]) && DecodeLeaf(b).value.1 == FromBigEndian(b[3..11])
      && forall i | 0 <= i < FromBigEndian(b[1..3]) :: DecodeLeafSlot(SlotAt(b[11..], 580, i)) == Some(DecodeLeaf(b).value.0[i])
  {
    hide FromBigEndian, DecodeLeafSlots, DecodeLeafSlot;
    if |b| == 4084 && FromBigEndian(b[1..3]) <= 7 { LeafSlotsRead(b[11..], FromBigEndian(b[1..3])); }
  }

  lemma InternalSlotReads(b: Bytes)
    requires |b| == 72
    ensures DecodeInternalSlot(b).Some? <==> b[0] <= 63
    ensures DecodeInternalSlot(b).Some? ==>
      DecodeInternalSlot(b).value.0 == b[1..1 + b[0]] && DecodeInternalSlot(b).value.1 == FromBigEndian(b[64..72])
  {
    hide FromBigEndian;
    assert b[64..] == b[64..72];
  }

  lemma {:induction false} InternalSlotsRead(b: Bytes, count: nat)
    requires |b| >= 72 * count
    ensures DecodeInternalSlots(b, count).Some? <==> forall i | 0 <= i < count :: DecodeInternalSlot(SlotAt(b, 72, i)).Some?
    ensures DecodeInternalSlots(b, count).Some? ==> var (keys, ptrs) := DecodeInternalSlots(b, count).value;
      forall i | 0 <= i < count :: DecodeInternalSlot(SlotAt(b, 72, i)) == Some((keys[i], ptrs[i]))
  {
    hide DecodeInternalSlot;
    if count > 0 {
      var rest := b[72..];
      InternalSlotsRead(rest, count - 1);
      assert SlotAt(b, 72, 0) == b[..72];
      forall i | 0 <= i < count - 1 ensures SlotAt(rest, 72, i) == SlotAt(b, 72, i + 1) {}
      forall i | 1 <= i < count ensures SlotAt(b, 72, i) == SlotAt(rest, 72, i - 1) {}
    }
  }

  /** Exactly what reads as an internal node, and its keys and children. */
  lemma InternalReads(b: Bytes)
    ensures DecodeInternal(b).Some? <==>
      && |b| == 4084 && b[0] == 2 && FromBigEndian(b[1..3]) <= 56
      && forall i | 0 <= i < FromBigEndian(b[1..3]) :: DecodeInternalSlot(SlotAt(b[11..], 72, i)).Some?
    ensures DecodeInternal(b).Some? ==> var (ptrs, keys) := DecodeInternal(b).value;
      && |keys| == FromBigEndian(b[1..3]) && |ptrs| == |keys| + 1 && ptrs[0] == FromBigEndian(b[3..11])
      && forall i | 0 <= i < |keys| :: DecodeInternalSlot(SlotAt(b[11..], 72, i)) == Some((keys[i], ptrs[i + 1]))
  {
    hide FromBigEndian, DecodeInternalSlots, DecodeInternalSlot;
    if |b| == 4084 && FromBigEndian(b[1..3]) <= 56 { InternalSlotsRead(b[11..], FromBigEndian(b[1..3])); }
  }

  lemma MetaReads(b: Bytes)
    ensures DecodeMeta(b).Some? <==> |b| == 4084 && b[0] == 3
    ensures DecodeMeta(b).Some? ==> DecodeMeta(b).value == FromBigEndian(b[1..9])
  {
    hide FromBigEndian;
  }

  lemma OverflowLayout(next: U64, chunk: Bytes)
    requires |chunk| <= 4075
    ensures var b := Overflow.EncodeOverflow(next, chunk);
      && |b| == 4084 && b[0] == 4 && b[1..9] == BigEndian(next, 8) && b[9..9 + |chunk|] == chunk
      && forall i | 9 + |chunk| <= i < 4084 :: b[i] == 0
  {
    hide BigEndian;
  }

  /** The counts are as many as fit a page of 4084 bytes. */
  lemma Capacities()
    ensures MAX_LEAF_KEYS == 7 && 11 + 580 * 7 <= 4084 < 11 + 580 * 8
    ensures MAX_INTERNAL_KEYS == 56 && 11 + 72 * 56 <= 4084 < 11 + 72 * 57
    ensures BODY_SIZE == 4084 == 4096 - 12 && FIRST_DATA_PAGE == 2
  {}

  // ----- rows -----

  /** A row key: tag 1, table, key columns and version. */
  lemma RowLayout(table: U64, pk: seq<RowKey.Value>, version: U64)
    ensures var b := RowKey.EncodeRow(RowKey.Row(table, pk, version)); var n := |RowKey.EncodePk(pk)|;
      && |b| == 17 + n && b[0] == 1 && b[1..9] == BigEndian(table, 8)
      && b[9..9 + n] == RowKey.EncodePk(pk) && b[9 + n..] == BigEndian(version, 8)
    ensures RowKey.TablePrefix(table) == [1] + BigEndian(table, 8)
  {
    hide BigEndian, RowKey.EncodePk;
    var head, mid := [1] + Put64(table), RowKey.EncodePk(pk);
    Halves(head + mid, Put64(version));
    InMiddle(head, mid, Put64(version), 0, |mid|);
    assert mid[0..|mid|] == mid;
    var b := head + mid + Put64(version);
    assert b[1..9] == head[1..9] == Put64(table);
  }

  /** A column of a key: a number big-endian, a signed one moved up by 2^63, a string and a zero byte,
      or bytes as they are; the columns of a key follow one another. */
  lemma ColumnLayout(v: RowKey.Value, rest: seq<RowKey.Value>)
    ensures match v
      case Uint64(u) => RowKey.EncodeColumn(v) == BigEndian(u, 8)
      case Int64(i) => RowKey.EncodeColumn(v) == BigEndian(i + 0x8000_0000_0000_0000, 8)
      case String(s) => RowKey.EncodeColumn(v) == s + [0]
      case Blob(b) => RowKey.EncodeColumn(v) == b
    ensures RowKey.EncodePk([v] + rest) == RowKey.EncodeColumn(v) + RowKey.EncodePk(rest)
  {
    hide BigEndian;
    assert ([v] + rest)[1..] == rest;
  }

  /** A row value: 0 for a row and 1 for a tombstone, a bitmask with the bit c % 8 of byte c / 8 set
      for each NULL column c, and the other columns, each behind its length in four bytes. */
  lemma RowValueLayout(flag: byte, values: RowValue.Values)
    ensures var b := RowValue.RowBytes(flag, values); var m := (|values| + 7) / 8;
      && |b| >= 1 + m && b[0] == flag && b[1 + m..] == RowValue.Composite(RowValue.Primitives(values))
      && forall c | 0 <= c < |values| :: c / 8 < m && (Shift(b[1 + c / 8], c % 8) % 2 == 1 <==> values[c].Null?)
    ensures RowValue.CellBytes(|values|, RowValue.Live(values)) == RowValue.RowBytes(0, values)
    ensures RowValue.CellBytes(|values|, RowValue.Tombstone) == RowValue.RowBytes(1, seq(|values|, i => RowValue.Null))
  {
    hide RowValue.Bitmask, RowValue.Composite, RowValue.Primitives, BitsOf;
    var b, mask := RowValue.RowBytes(flag, values), RowValue.Bitmask(values);
    Halves([flag] + mask, RowValue.Composite(RowValue.Primitives(values)));
    assert RowValue.AllNull(|values|) == seq(|values|, i => RowValue.Null);
    forall c | 0 <= c < |values|
      ensures c / 8 < |mask| && (Shift(b[1 + c / 8], c % 8) % 2 == 1 <==> values[c].Null?)
    {
      RowValue.MaskMarks(values, c);
      BitValue(mask[c / 8], 8, 7 - c % 8);
    }
  }

  lemma FieldLayout(v: RowKey.Value, rest: seq<RowKey.Value>)
    requires |RowValue.FieldBytes(v)| < 0x1_0000_0000
    ensures RowValue.Composite([v] + rest) == BigEndian(|RowValue.FieldBytes(v)|, 4) + RowValue.FieldBytes(v) + RowValue.Composite(rest)
    ensures match v
      case Uint64(u) => RowValue.FieldBytes(v) == BigEndian(u, 8)
      case Int64(i) => RowValue.FieldBytes(v) == BigEndian(i + 0x8000_0000_0000_0000, 8)
      case String(s) => RowValue.FieldBytes(v) == s
      case Blob(b) => RowValue.FieldBytes(v) == b
  {
    hide BigEndian;
    assert ([v] + rest)[1..] == rest;
  }

  /** The columns that are not NULL are stored in their order. */
  lemma PrimitiveOrder(values: RowValue.Values, d: RowValue.Datum)
    ensures RowValue.Primitives(values + [d]) == RowValue.Primitives(values) + if d.Null? then [] else [d.v]
    ensures RowValue.Primitives([]) == []
  {
    assert (values + [d])[..|values|] == values;
  }

  // ----- metric points -----

  /** A point: time, tags and name behind their lengths, and value, all little-endian. */
  lemma PointLayout(p: MetricsCodec.Point)
    ensures var b, t, n := MetricsCodec.EncodePoint(p), |p.tags|, |p.name|;
      && |b| == 20 + t + n
      && b[0..8] == MetricsCodec.LittleEndian(if p.timestamp < 0 then p.timestamp + 0x1_0000_0000_0000_0000 else p.timestamp, 8)
      && b[8..10] == MetricsCodec.LittleEndian(t, 2) && b[10..10 + t] == p.tags
      && b[10 + t..12 + t] == MetricsCodec.LittleEndian(n, 2) && b[12 + t..12 + t + n] == p.name
      && b[12 + t + n..] == MetricsCodec.LittleEndian(p.value, 8)
  {
    hide MetricsCodec.LittleEndian;
    MetricsCodec.PointParts(p, []);
    assert MetricsCodec.EncodePoint(p) + [] == MetricsCodec.EncodePoint(p);
  }

  /** A page of points: their number, where the next one goes, and the points from byte 8 on. */
  lemma PointPageLayout(pts: seq<MetricsCodec.Point>)
    requires 8 + |MetricsCodec.Records(pts)| <= 4084
    ensures var b, n := MetricsCodec.PageBody(pts), |MetricsCodec.Records(pts)|;
      && |b| == 4084 && b[0..4] == MetricsCodec.LittleEndian(|pts|, 4) && b[4..8] == MetricsCodec.LittleEndian(8 + n, 4)
      && b[8..8 + n] == MetricsCodec.Records(pts) && forall i | 8 + n <= i < 4084 :: b[i] == 0
    ensures pts != [] ==>
      MetricsCodec.Records(pts) == MetricsCodec.Records(pts[..|pts| - 1]) + MetricsCodec.EncodePoint(pts[|pts| - 1])
    ensures MetricsCodec.Records([]) == []
  {
    hide MetricsCodec.LittleEndian, MetricsCodec.EncodePoint;
  }
}
