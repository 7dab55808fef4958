/** Page bodies of the key-value store (internal/engine/sql/kv/node.go) as byte strings. */
module NodeCodec {
  import opened Wrappers
  import opened Bytes
  import opened SortedEntries
  import opened Tree

  const MAX_KEY_SIZE: nat := 63
  const MAX_VAL_SIZE: nat := 512
  const MAX_VAL_SIZE_ENTERPRISE: nat := 16 * 1024 * 1024
  /** With its chain's page id in front, a large value has to stay within the limit. */
  const MAX_STORABLE: nat := MAX_VAL_SIZE_ENTERPRISE - 8
  const PREFIX_SIZE: nat := 504
  const LEAF_SLOT_SIZE: nat := 580
  const INTERNAL_SLOT_SIZE: nat := 72
  const SLOT_SPACE: nat := 4073

  const TYPE_LEAF: byte := 1
  const TYPE_INTERNAL: byte := 2
  const TYPE_META: byte := 3
  const TYPE_OVERFLOW: byte := 4

  /** How a leaf slot holds a value: all of it, or a prefix and the first overflow page. */
  datatype ValueRef = Inline(val: Val) | Overflow(total: nat, prefix: Bytes, page: U64)

  /** b padded with zeros to width w. */
  function Fixed(b: Bytes, w: nat): (r: Bytes)
    requires |b| <= w
    ensures |r| == w
  {
    b + Zeros(w - |b|)
  }

  lemma Halves(a: Bytes, b: Bytes)
    ensures (a + b)[..|a|] == a && (a + b)[|a|..] == b
  {}

  // ----- meta page -----

  function EncodeMeta(root: U64): (b: Bytes)
    ensures |b| == BODY_SIZE
  {
    [TYPE_META] + Put64(root) + Zeros(BODY_SIZE - 9)
  }

  function DecodeMeta(b: Bytes): Option<U64> {
    if |b| != BODY_SIZE || b[0] != TYPE_META then None else Some(Get64(b[1..9]))
  }

  lemma MetaRoundTrip(root: U64)
    ensures DecodeMeta(EncodeMeta(root)) == Some(root)
  {
    Get64Put64(root);
    assert EncodeMeta(root)[1..9] == Put64(root);
  }

  // ----- leaf page -----

  /** A stored value: at most MAX_VAL_SIZE bytes inline; otherwise the argument is the first
      overflow page's ID followed by the whole value. */
  function EncodeValue(v: Bytes): (b: Bytes)
    requires |v| <= MAX_VAL_SIZE_ENTERPRISE
    ensures |b| == 4 + MAX_VAL_SIZE
  {
    if |v| > MAX_VAL_SIZE then
      Put32(|v| - 8) + v[..8] + v[8..8 + PREFIX_SIZE]
    else Put32(|v|) + Fixed(v, MAX_VAL_SIZE)
  }

  function DecodeValue(b: Bytes): Option<ValueRef>
    requires |b| == 4 + MAX_VAL_SIZE
  {
    var total := Get32(b[..4]);
    if total > MAX_VAL_SIZE_ENTERPRISE then None
    else if total > MAX_VAL_SIZE then Some(Overflow(total, b[12..], Get64(b[4..12])))
    else Some(Inline(b[4..4 + total]))
  }

  lemma InlineRoundTrip(v: Val)
    requires |v| <= MAX_VAL_SIZE
    ensures DecodeValue(EncodeValue(v)) == Some(Inline(v))
  {
    var b := EncodeValue(v);
    Halves(Put32(|v|), Fixed(v, MAX_VAL_SIZE));
    Get32Put32(|v|);
    assert b[4..4 + |v|] == b[4..][..|v|];
    Halves(v, Zeros(MAX_VAL_SIZE - |v|));
  }

  /** What decodeLeafNode makes of a value: for a large one, its page id and its prefix. */
  function Flattened(ref: ValueRef): Bytes
    requires ref.Overflow? ==> ref.page < U64_LIMIT
  {
    match ref
    case Inline(val) => val
    case Overflow(_, prefix, page) => Put64(page) + prefix
  }

  /** Decoding a leaf and encoding it again keeps a value exactly if it was inline; a large value
      becomes one of 512 bytes, its page id and prefix. */
  lemma RewriteKeepsIff(b: Bytes, ref: ValueRef)
    requires |b| == 4 + MAX_VAL_SIZE && DecodeValue(b) == Some(ref)
    ensures (ref.Overflow? ==> ref.page < U64_LIMIT) && |Flattened(ref)| <= MAX_VAL_SIZE
    ensures DecodeValue(EncodeValue(Flattened(ref))) == Some(Inline(Flattened(ref)))
    ensures DecodeValue(EncodeValue(Flattened(ref))) == Some(ref) <==> ref.Inline?
    ensures ref.Overflow? ==> |Flattened(ref)| == MAX_VAL_SIZE
  {
    hide EncodeValue;
    InlineRoundTrip(Flattened(ref));
  }

  function LeafSlot(e: Entry): (b: Bytes)
    requires |e.key| <= MAX_KEY_SIZE && |e.val| <= MAX_VAL_SIZE_ENTERPRISE
    ensures |b| == LEAF_SLOT_SIZE
  {
    [|e.key|] + Fixed(e.key, MAX_KEY_SIZE) + EncodeValue(e.val)
  }

  function DecodeLeafSlot(b: Bytes): Option<(Key, ValueRef)>
    requires |b| == LEAF_SLOT_SIZE
  {
    if b[0] > MAX_KEY_SIZE then None
    else
      match DecodeValue(b[64..])
      case None => None
      case Some(ref) => Some((b[1..1 + b[0]], ref))
  }

  lemma LeafSlotRoundTrip(e: Entry)
    requires |e.key| <= MAX_KEY_SIZE && |e.val| <= MAX_VAL_SIZE
    ensures DecodeLeafSlot(LeafSlot(e)) == Some((e.key, Inline(e.val)))
  {
    LeafSlotParts(e);
    InlineRoundTrip(e.val);
  }

  lemma LeafSlotParts(e: Entry)
    requires |e.key| <= MAX_KEY_SIZE && |e.val| <= MAX_VAL_SIZE_ENTERPRISE
    ensures LeafSlot(e)[0] == |e.key| && LeafSlot(e)[1..1 + |e.key|] == e.key
    ensures LeafSlot(e)[64..] == EncodeValue(e.val)
  {
    hide EncodeValue;
    Halves([|e.key|] + Fixed(e.key, MAX_KEY_SIZE), EncodeValue(e.val));
    assert LeafSlot(e)[1..1 + |e.key|] == e.key;
  }

  ghost predicate FitsLeaf(es: seq<Entry>) {
    forall i | 0 <= i < |es| :: |es[i].key| <= MAX_KEY_SIZE && |es[i].val| <= MAX_VAL_SIZE
  }

  function LeafSlots(es: seq<Entry>): (b: Bytes)
    requires forall i | 0 <= i < |es| :: |es[i].key| <= MAX_KEY_SIZE && |es[i].val| <= MAX_VAL_SIZE_ENTERPRISE
    ensures |b| == LEAF_SLOT_SIZE * |es|
  {
    if es == [] then [] else LeafSlot(es[0]) + LeafSlots(es[1..])
  }

  /** The slots of a leaf body; None when some slot is malformed. */
  function DecodeLeafSlots(b: Bytes, count: nat): Option<seq<(Key, ValueRef)>>
    requires |b| >= LEAF_SLOT_SIZE * count
  {
    if count == 0 then Some([])
    else
      match (DecodeLeafSlot(b[..LEAF_SLOT_SIZE]), DecodeLeafSlots(b[LEAF_SLOT_SIZE..], count - 1))
      case (Some(slot), Some(slots)) => Some([slot] + slots)
      case _ => None
  }

  function Refs(es: seq<Entry>): (r: seq<(Key, ValueRef)>)
    ensures |r| == |es|
  {
    seq(|es|, i requires 0 <= i < |es| => (es[i].key, Inline(es[i].val)))
  }

  lemma {:induction false} LeafSlotsRoundTrip(es: seq<Entry>, rest: Bytes)
    requires FitsLeaf(es)
    ensures DecodeLeafSlots(LeafSlots(es) + rest, |es|) == Some(Refs(es))
  {
    hide LeafSlot, DecodeLeafSlot;
    if es == [] {
      assert LeafSlots(es) + rest == rest;
    } else {
      LeafSlotRoundTrip(es[0]);
      LeafSlotsRoundTrip(es[1..], rest);
      FirstSlot(es, rest);
      hide LeafSlots;
    }
  }

  lemma FirstSlot(es: seq<Entry>, rest: Bytes)
    requires es != [] && FitsLeaf(es)
    ensures var b := LeafSlots(es) + rest;
      b[..LEAF_SLOT_SIZE] == LeafSlot(es[0]) && b[LEAF_SLOT_SIZE..] == LeafSlots(es[1..]) + rest
    ensures Refs(es) == [(es[0].key, Inline(es[0].val))] + Refs(es[1..])
  {
    hide LeafSlot;
    assert LeafSlots(es) + rest == LeafSlot(es[0]) + (LeafSlots(es[1..]) + rest);
    Halves(LeafSlot(es[0]), LeafSlots(es[1..]) + rest);
  }

  predicate Ascends(keys: seq<Key>) {
    forall i | 1 <= i < |keys| :: LexLess(keys[i - 1], keys[i])
  }

  function Keys(es: seq<Entry>): (ks: seq<Key>)
    ensures |ks| == |es|
  {
    seq(|es|, i requires 0 <= i < |es| => es[i].key)
  }

  /** encodeLeafNode: None stands for its error returns. */
  function EncodeLeaf(es: seq<Entry>, next: U64): (r: Option<Bytes>)
    ensures r.Some? ==> |r.value| == BODY_SIZE
  {
    if |es| > MAX_LEAF_KEYS || !Ascends(Keys(es)) then None
    else if exists i :: 0 <= i < |es| && (|es[i].key| > MAX_KEY_SIZE || |es[i].val| > MAX_VAL_SIZE_ENTERPRISE) then None
    else Some([TYPE_LEAF] + Put16(|es|) + Put64(next) + LeafSlots(es) + Zeros(SLOT_SPACE - LEAF_SLOT_SIZE * |es|))
  }

  /** decodeLeafNodeRefs. */
  function DecodeLeaf(b: Bytes): Option<(seq<(Key, ValueRef)>, U64)> {
    if |b| != BODY_SIZE || b[0] != TYPE_LEAF then None
    else
      var count := Get16(b[1..3]);
      if count > MAX_LEAF_KEYS then None
      else
        match DecodeLeafSlots(b[11..], count)
        case None => None
        case Some(slots) => Some((slots, Get64(b[3..11])))
  }

  lemma HeaderParts(tag: byte, count: U16, ptr: U64, slots: Bytes)
    requires |slots| == SLOT_SPACE
    ensures var b := [tag] + Put16(count) + Put64(ptr) + slots;
      |b| == BODY_SIZE && b[0] == tag && Get16(b[1..3]) == count && Get64(b[3..11]) == ptr && b[11..] == slots
  {
    Get16Put16(count);
    Get64Put64(ptr);
    var b := [tag] + Put16(count) + Put64(ptr) + slots;
    assert b[1..3] == Put16(count);
    assert b[3..11] == Put64(ptr);
    Halves([tag] + Put16(count) + Put64(ptr), slots);
  }

  lemma LeafRoundTrip(es: seq<Entry>, next: U64)
    requires |es| <= MAX_LEAF_KEYS && FitsLeaf(es) && Ascends(Keys(es))
    ensures EncodeLeaf(es, next).Some?
    ensures DecodeLeaf(EncodeLeaf(es, next).value) == Some((Refs(es), next))
  {
    hide LeafSlots, DecodeLeafSlots, Ascends;
    var pad := Zeros(SLOT_SPACE - LEAF_SLOT_SIZE * |es|);
    var b := EncodeLeaf(es, next).value;
    assert b == [TYPE_LEAF] + Put16(|es|) + Put64(next) + (LeafSlots(es) + pad);
    HeaderParts(TYPE_LEAF, |es|, next, LeafSlots(es) + pad);
    LeafSlotsRoundTrip(es, pad);
  }

  // ----- internal page -----

  function InternalSlot(key: Key, ptr: U64): (b: Bytes)
    requires |key| <= MAX_KEY_SIZE
    ensures |b| == INTERNAL_SLOT_SIZE
  {
    [|key|] + Fixed(key, MAX_KEY_SIZE) + Put64(ptr)
  }

  function DecodeInternalSlot(b: Bytes): Option<(Key, U64)>
    requires |b| == INTERNAL_SLOT_SIZE
  {
    if b[0] > MAX_KEY_SIZE then None else Some((b[1..1 + b[0]], Get64(b[64..])))
  }

  lemma InternalSlotRoundTrip(key: Key, ptr: U64)
    requires |key| <= MAX_KEY_SIZE
    ensures DecodeInternalSlot(InternalSlot(key, ptr)) == Some((key, ptr))
  {
    Get64Put64(ptr);
    Halves([|key|] + Fixed(key, MAX_KEY_SIZE), Put64(ptr));
    assert InternalSlot(key, ptr)[1..1 + |key|] == key;
  }

  function InternalSlots(keys: seq<Key>, ptrs: seq<U64>): (b: Bytes)
    requires |keys| == |ptrs| && forall i | 0 <= i < |keys| :: |keys[i]| <= MAX_KEY_SIZE
    ensures |b| == INTERNAL_SLOT_SIZE * |keys|
  {
    if keys == [] then [] else InternalSlot(keys[0], ptrs[0]) + InternalSlots(keys[1..], ptrs[1..])
  }

  function DecodeInternalSlots(b: Bytes, count: nat): (r: Option<(seq<Key>, seq<U64>)>)
    requires |b| >= INTERNAL_SLOT_SIZE * count
    ensures r.Some? ==> |r.value.0| == |r.value.1| == count
  {
    if count == 0 then Some(([], []))
    else
      match (DecodeInternalSlot(b[..INTERNAL_SLOT_SIZE]), DecodeInternalSlots(b[INTERNAL_SLOT_SIZE..], count - 1))
      case (Some(slot), Some(rest)) => Some(([slot.0] + rest.0, [slot.1] + rest.1))
      case _ => None
  }

  lemma {:induction false} InternalSlotsRoundTrip(keys: seq<Key>, ptrs: seq<U64>, rest: Bytes)
    requires |keys| == |ptrs| && forall i | 0 <= i < |keys| :: |keys[i]| <= MAX_KEY_SIZE
    ensures DecodeInternalSlots(InternalSlots(keys, ptrs) + rest, |keys|) == Some((keys, ptrs))
  {
    hide InternalSlot, DecodeInternalSlot;
    if keys != [] {
      InternalSlotRoundTrip(keys[0], ptrs[0]);
      InternalSlotsRoundTrip(keys[1..], ptrs[1..], rest);
      var b := InternalSlots(keys, ptrs) + rest;
      assert b == InternalSlot(keys[0], ptrs[0]) + (InternalSlots(keys[1..], ptrs[1..]) + rest);
      Halves(InternalSlot(keys[0], ptrs[0]), InternalSlots(keys[1..], ptrs[1..]) + rest);
      assert keys == [keys[0]] + keys[1..] && ptrs == [ptrs[0]] + ptrs[1..];
    }
  }

  /** encodeInternalNode: None stands for its error returns. */
  function EncodeInternal(ptrs: seq<U64>, keys: seq<Key>): (r: Option<Bytes>)
    ensures r.Some? ==> |r.value| == BODY_SIZE
  {
    if |ptrs| != |keys| + 1 || |keys| > MAX_INTERNAL_KEYS || !Ascends(keys) then None
    else if exists i :: 0 <= i < |keys| && |keys[i]| > MAX_KEY_SIZE then None
    else Some([TYPE_INTERNAL] + Put16(|keys|) + Put64(ptrs[0])
              + InternalSlots(keys, ptrs[1..]) + Zeros(SLOT_SPACE - INTERNAL_SLOT_SIZE * |keys|))
  }

  function DecodeInternal(b: Bytes): (r: Option<(seq<U64>, seq<Key>)>)
    ensures r.Some? ==> |r.value.0| == |r.value.1| + 1
  {
    if |b| != BODY_SIZE || b[0] != TYPE_INTERNAL then None
    else
      var count := Get16(b[1..3]);
      if count > MAX_INTERNAL_KEYS then None
      else
        match DecodeInternalSlots(b[11..], count)
        case None => None
        case Some(slots) => Some(([Get64(b[3..11])] + slots.1, slots.0))
  }

  lemma InternalRoundTrip(ptrs: seq<U64>, keys: seq<Key>)
    requires |ptrs| == |keys| + 1 && |keys| <= MAX_INTERNAL_KEYS && Ascends(keys)
    requires forall i | 0 <= i < |keys| :: |keys[i]| <= MAX_KEY_SIZE
    ensures EncodeInternal(ptrs, keys).Some?
    ensures DecodeInternal(EncodeInternal(ptrs, keys).value) == Some((ptrs, keys))
  {
    hide InternalSlots, DecodeInternalSlots, Ascends;
    var pad := Zeros(SLOT_SPACE - INTERNAL_SLOT_SIZE * |keys|);
    var b := EncodeInternal(ptrs, keys).value;
    assert b == [TYPE_INTERNAL] + Put16(|keys|) + Put64(ptrs[0]) + (InternalSlots(keys, ptrs[1..]) + pad);
    HeaderParts(TYPE_INTERNAL, |keys|, ptrs[0], InternalSlots(keys, ptrs[1..]) + pad);
    InternalSlotsRoundTrip(keys, ptrs[1..], pad);
    assert ptrs == [ptrs[0]] + ptrs[1..];
  }
}
