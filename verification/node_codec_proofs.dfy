/** The byte layout `serialize` produces, and the round trip through `deserialize`.

    For a node with m items, `serialize` leaves a page of length len as follows:
    - bytes 0..3: the leaf flag and the item count;
    - item j's child pointer (internal nodes) at LeftAt(j), its 2-byte offset at OffsetAt(j);
    - an internal node's last child pointer at LeftAt(m);
    - item j's record `klen|key|vlen|value` at [RightAt(j+1), RightAt(j)), where
      RightAt(0) = len - 1, so records are packed downward and byte len-1 is never written;
    - every other byte of the page as it was. */
module NodeCodecProofs {
  import opened Results
  import opened Bytes
  import opened NodeCodec

  function ItemSize(it: Item): nat {
    |it.key| + |it.value| + 2
  }

  /** Bytes taken by the records of the first i items. */
  function RecordsSize(items: seq<Item>, i: nat): nat
    requires i <= |items|
  {
    if i == 0 then 0 else RecordsSize(items, i - 1) + ItemSize(items[i - 1])
  }

  lemma {:induction false} RecordsSizeMonotone(items: seq<Item>, i: nat, j: nat)
    requires i <= j <= |items|
    ensures RecordsSize(items, i) <= RecordsSize(items, j)
    decreases j - i
  {
    if i < j {
      RecordsSizeMonotone(items, i, j - 1);
    }
  }

  /** The left cursor before item i. */
  function LeftAt(n: Node, i: int): int {
    if IsLeaf(n) then 3 + 2 * i else 3 + 10 * i
  }

  /** Where item i's offset is stored. */
  function OffsetAt(n: Node, i: int): int {
    if IsLeaf(n) then 3 + 2 * i else 3 + 10 * i + 8
  }

  /** The right cursor before item i; item i's record ends just below it. */
  function RightAt(n: Node, len: int, i: nat): int
    requires i <= |n.items|
  {
    len - 1 - RecordsSize(n.items, i)
  }

  /** An item as the right cursor lays it out. */
  function Record(it: Item): seq<byte> {
    [|it.key| % 256] + it.key + [|it.value| % 256] + it.value
  }

  function Header(n: Node): seq<byte> {
    [if IsLeaf(n) then 1 else 0] + LE(|n.items|, 2)
  }

  /** One past the last byte the left cursor's stores reach once items before i are
      written (the 8-byte offset store of item i-1 reaches 6 bytes past the cursor). */
  function WrittenLeft(n: Node, i: nat): int {
    if i == 0 then 3 else OffsetAt(n, i - 1) + 8
  }

  /** One past the last byte of the left region of the finished page. */
  function LeftEnd(n: Node): int {
    if !IsLeaf(n) then LeftAt(n, |n.items|) + 8 else WrittenLeft(n, |n.items|)
  }

  /** A sufficient condition for the round trip: an internal node has one more child than
      items, every length fits its one-byte prefix, every offset fits 16 bits, and the
      left region, the whole of the last 8-byte offset store included, stays below the
      records. It is not necessary: `NearlyFullLeafRoundTrips` shows a leaf whose last
      offset store runs into its last record and still reads back. */
  ghost predicate Encodable(n: Node, len: int) {
    && (IsLeaf(n) || |n.childNodes| == |n.items| + 1)
    && (forall j :: 0 <= j < |n.items| ==> |n.items[j].key| < 256 && |n.items[j].value| < 256)
    && len <= U16
    && LeftEnd(n) <= RightAt(n, len, |n.items|)
  }

  /** Items before i have their offsets stored, pointing at their records. */
  ghost predicate OffsetsHeld(n: Node, len: int, b: seq<byte>, i: nat)
    requires i <= |n.items|
  {
    forall j :: 0 <= j < i ==> Holds(b, OffsetAt(n, j), LE(RightAt(n, len, j + 1), 2))
  }

  /** Child pointers before i are stored. */
  ghost predicate PointersHeld(n: Node, b: seq<byte>, i: nat) {
    forall j :: 0 <= j < i && j < |n.childNodes| ==> Holds(b, LeftAt(n, j), LE(n.childNodes[j], 8))
  }

  /** Records of items before i are stored. */
  ghost predicate RecordsHeld(n: Node, len: int, b: seq<byte>, i: nat)
    requires i <= |n.items|
  {
    forall j :: 0 <= j < i ==> Holds(b, RightAt(n, len, j + 1), Record(n.items[j]))
  }

  /** `b` still has the bytes of `orig` in [lo, hi) and at the last position. */
  ghost predicate Untouched(orig: seq<byte>, b: seq<byte>, lo: int, hi: int) {
    && |b| == |orig|
    && forall k :: 0 <= k < |orig| && (lo <= k < hi || k == |orig| - 1) ==> b[k] == orig[k]
  }

  /** `b'` differs from `b` at most inside two windows. */
  ghost predicate SameOutside2(b: seq<byte>, b': seq<byte>, lo1: int, hi1: int, lo2: int, hi2: int) {
    && |b'| == |b|
    && forall k :: 0 <= k < |b| && !(lo1 <= k < hi1) && !(lo2 <= k < hi2) ==> b'[k] == b[k]
  }

  /** The state of the item loop of `serialize` before item i, started on page `orig`. */
  ghost predicate Laid(n: Node, orig: seq<byte>, c: Cursor, i: nat)
    requires i <= |n.items|
  {
    && c.left == LeftAt(n, i)
    && c.right == RightAt(n, |orig|, i)
    && Holds(c.buf, 0, Header(n))
    && OffsetsHeld(n, |orig|, c.buf, i)
    && PointersHeld(n, c.buf, i)
    && RecordsHeld(n, |orig|, c.buf, i)
    && (0 < i ==> Holds(c.buf, OffsetAt(n, i - 1), LE(RightAt(n, |orig|, i), 8)))
    && Untouched(orig, c.buf, WrittenLeft(n, i), c.right)
  }

  /** The finished page `out` written over `orig`. */
  ghost predicate Encoded(n: Node, orig: seq<byte>, out: seq<byte>) {
    && Holds(out, 0, Header(n))
    && OffsetsHeld(n, |orig|, out, |n.items|)
    && PointersHeld(n, out, |n.childNodes|)
    && RecordsHeld(n, |orig|, out, |n.items|)
    && Untouched(orig, out, LeftEnd(n), RightAt(n, |orig|, |n.items|))
    && (IsLeaf(n) && |n.items| > 0 ==>
          forall k :: LeftAt(n, |n.items|) <= k < LeftEnd(n) && k < |out| ==> out[k] == 0)
  }

  lemma OffsetsKept(n: Node, len: int, b: seq<byte>, b': seq<byte>, i: nat, lo: int, hi: int)
    requires i <= |n.items| && OffsetsHeld(n, len, b, i) && SameOutside(b, b', lo, hi)
    requires LeftAt(n, i) <= lo
    ensures OffsetsHeld(n, len, b', i)
  {
    forall j | 0 <= j < i
      ensures Holds(b', OffsetAt(n, j), LE(RightAt(n, len, j + 1), 2))
    {
      HoldsKept(b, b', OffsetAt(n, j), LE(RightAt(n, len, j + 1), 2), lo, hi);
    }
  }

  lemma PointersKept(n: Node, b: seq<byte>, b': seq<byte>, i: nat, lo: int, hi: int)
    requires PointersHeld(n, b, i) && SameOutside(b, b', lo, hi)
    requires LeftAt(n, i) <= lo
    ensures PointersHeld(n, b', i)
  {
    forall j | 0 <= j < i && j < |n.childNodes|
      ensures Holds(b', LeftAt(n, j), LE(n.childNodes[j], 8))
    {
      HoldsKept(b, b', LeftAt(n, j), LE(n.childNodes[j], 8), lo, hi);
    }
  }

  lemma RecordsKept(n: Node, len: int, b: seq<byte>, b': seq<byte>, i: nat, lo: int, hi: int)
    requires i <= |n.items| && RecordsHeld(n, len, b, i) && SameOutside(b, b', lo, hi)
    requires hi <= RightAt(n, len, i)
    ensures RecordsHeld(n, len, b', i)
  {
    forall j | 0 <= j < i
      ensures Holds(b', RightAt(n, len, j + 1), Record(n.items[j]))
    {
      RecordsSizeMonotone(n.items, j + 1, i);
      HoldsKept(b, b', RightAt(n, len, j + 1), Record(n.items[j]), lo, hi);
    }
  }

  /** The four stores of a record land in [right - size, right) and spell `Record(item)`. */
  lemma WriteRecordSpec(c: Cursor, item: Item)
    requires 0 <= c.right - ItemSize(item) && c.right < |c.buf|
    ensures WriteRecord(c, item).Ok?
    ensures var r := WriteRecord(c, item).value;
      && r.right == c.right - ItemSize(item) && r.left == c.left
      && Holds(r.buf, r.right, Record(item))
      && SameOutside(c.buf, r.buf, r.right, c.right)
  {
    var klen := |item.key|;
    var vlen := |item.value|;
    var r1 := c.right - vlen;
    assert Copy(c.buf, r1, item.value) == Put(c.buf, r1, item.value);
    PutSame(c.buf, r1, item.value);
    var b1 := Put(c.buf, r1, item.value).value;
    var r2 := r1 - 1;
    PutSame(b1, r2, [vlen % 256]);
    var b2 := Put(b1, r2, [vlen % 256]).value;
    var r3 := r2 - klen;
    assert Copy(b2, r3, item.key) == Put(b2, r3, item.key);
    PutSame(b2, r3, item.key);
    var b3 := Put(b2, r3, item.key).value;
    var r4 := r3 - 1;
    PutSame(b3, r4, [klen % 256]);
    var b4 := Put(b3, r4, [klen % 256]).value;
    WriteRecordSteps(c, item, b1, b2, b3, b4);
    RecordStoresCombine(c.buf, b1, b2, b3, b4, r4, c.right, item);
  }

  lemma WriteRecordSteps(c: Cursor, item: Item, b1: seq<byte>, b2: seq<byte>, b3: seq<byte>, b4: seq<byte>)
    requires Copy(c.buf, c.right - |item.value|, item.value) == Ok(b1)
    requires Put(b1, c.right - |item.value| - 1, [|item.value| % 256]) == Ok(b2)
    requires Copy(b2, c.right - |item.value| - 1 - |item.key|, item.key) == Ok(b3)
    requires Put(b3, c.right - |item.value| - 2 - |item.key|, [|item.key| % 256]) == Ok(b4)
    ensures WriteRecord(c, item) == Ok(Cursor(b4, c.left, c.right - ItemSize(item)))
  {
  }

  /** The value, its length byte, the key and its length byte, stored each just below the
      previous one, spell `Record(item)` and touch nothing else. */
  lemma RecordStoresCombine(b0: seq<byte>, b1: seq<byte>, b2: seq<byte>, b3: seq<byte>, b4: seq<byte>,
                            r4: int, right: int, item: Item)
    requires r4 == right - ItemSize(item)
    requires SameOutside(b0, b1, right - |item.value|, right) && Holds(b1, right - |item.value|, item.value)
    requires SameOutside(b1, b2, r4 + 1 + |item.key|, r4 + 2 + |item.key|)
    requires Holds(b2, r4 + 1 + |item.key|, [|item.value| % 256])
    requires SameOutside(b2, b3, r4 + 1, r4 + 1 + |item.key|) && Holds(b3, r4 + 1, item.key)
    requires SameOutside(b3, b4, r4, r4 + 1) && Holds(b4, r4, [|item.key| % 256])
    ensures Holds(b4, r4, Record(item))
    ensures SameOutside(b0, b4, r4, right)
  {
    var klen := |item.key|;
    var vlen := |item.value|;
    var rec := Record(item);
    forall k | 0 <= k < |rec|
      ensures b4[r4 + k] == rec[k]
    {
      if k == 0 {
      } else if k <= klen {
        assert rec[k] == item.key[k - 1] && b3[r4 + 1 + (k - 1)] == item.key[k - 1];
      } else if k == klen + 1 {
        assert rec[k] == vlen % 256 && b2[r4 + 1 + klen] == vlen % 256;
      } else {
        assert rec[k] == item.value[k - klen - 2] && b1[right - vlen + (k - klen - 2)] == item.value[k - klen - 2];
      }
    }
  }

  lemma ChildPointerSpec(n: Node, i: nat, c: Cursor)
    requires !IsLeaf(n) ==> i < |n.childNodes| && 0 <= c.left && c.left + 8 <= |c.buf|
    ensures WriteChildPointer(n, i, c).Ok?
    ensures var c1 := WriteChildPointer(n, i, c).value;
      && c1.right == c.right
      && c1.left == (if IsLeaf(n) then c.left else c.left + 8)
      && SameOutside(c.buf, c1.buf, c.left, c1.left)
      && (!IsLeaf(n) ==> Holds(c1.buf, c.left, LE(n.childNodes[i], 8)))
  {
    if !IsLeaf(n) {
      PutSame(c.buf, c.left, LE(n.childNodes[i], 8));
    }
  }

  lemma OffsetSpec(c: Cursor, off: int)
    requires 0 <= c.left && c.left + 8 <= |c.buf|
    ensures WriteOffset(c, off).Ok?
    ensures var c2 := WriteOffset(c, off).value;
      && c2.right == c.right && c2.left == c.left + 2
      && SameOutside(c.buf, c2.buf, c.left, c.left + 8)
      && Holds(c2.buf, c.left, LE(off, 8))
  {
    PutSame(c.buf, c.left, LE(off, 8));
  }

  lemma LeftBeforeRight(n: Node, len: int, i: nat)
    requires Encodable(n, len) && i < |n.items|
    ensures OffsetAt(n, i) + 8 <= LeftEnd(n) <= RightAt(n, len, |n.items|) <= RightAt(n, len, i + 1)
    ensures RightAt(n, len, i + 1) == RightAt(n, len, i) - ItemSize(n.items[i])
    ensures RightAt(n, len, i) <= len - 1
  {
    RecordsSizeMonotone(n.items, i + 1, |n.items|);
  }

  /** One iteration of the item loop writes the child pointer, the offset and the record of
      item i in their places and leaves every other byte alone. */
  lemma WriteItemSpec(n: Node, orig: seq<byte>, c: Cursor, i: nat)
    requires i < |n.items| && (!IsLeaf(n) ==> i < |n.childNodes|)
    requires c.left == LeftAt(n, i) && c.right == RightAt(n, |orig|, i) && |c.buf| == |orig|
    requires OffsetAt(n, i) + 8 <= RightAt(n, |orig|, i + 1) && RightAt(n, |orig|, i) <= |orig| - 1
    ensures WriteItem(n, i, c).Ok?
    ensures var r := WriteItem(n, i, c).value; var len := |orig|;
      && r.left == LeftAt(n, i + 1) && r.right == RightAt(n, len, i + 1)
      && Holds(r.buf, OffsetAt(n, i), LE(RightAt(n, len, i + 1), 8))
      && (i < |n.childNodes| ==> Holds(r.buf, LeftAt(n, i), LE(n.childNodes[i], 8)))
      && Holds(r.buf, RightAt(n, len, i + 1), Record(n.items[i]))
      && SameOutside2(c.buf, r.buf, LeftAt(n, i), OffsetAt(n, i) + 8, RightAt(n, len, i + 1), RightAt(n, len, i))
  {
    assert RightAt(n, |orig|, i + 1) == c.right - ItemSize(n.items[i]);
    WriteItemAt(n, i, c, OffsetAt(n, i), RightAt(n, |orig|, i + 1));
  }

  /** `WriteItemSpec` with the positions as plain numbers: the cursor's left end, the
      offset slot `mid` after the child pointer, and the record's start `rnext`. */
  lemma WriteItemAt(n: Node, i: nat, c: Cursor, mid: int, rnext: int)
    requires i < |n.items| && (!IsLeaf(n) ==> i < |n.childNodes|)
    requires mid == (if IsLeaf(n) then c.left else c.left + 8)
    requires rnext == c.right - ItemSize(n.items[i])
    requires 0 <= c.left && mid + 8 <= rnext && c.right < |c.buf|
    ensures WriteItem(n, i, c).Ok?
    ensures var r := WriteItem(n, i, c).value;
      && r.left == mid + 2 && r.right == rnext
      && Holds(r.buf, mid, LE(rnext, 8))
      && (i < |n.childNodes| ==> Holds(r.buf, c.left, LE(n.childNodes[i], 8)))
      && Holds(r.buf, rnext, Record(n.items[i]))
      && SameOutside2(c.buf, r.buf, c.left, mid + 8, rnext, c.right)
  {
    var c1, c2 := WriteItemHead(n, i, c, mid, rnext);
    WriteRecordSpec(c2, n.items[i]);
    var r := WriteRecord(c2, n.items[i]).value;
    WriteItemSteps(n, i, c, c1, c2, r);
    var ptr := if i < |n.childNodes| then LE(n.childNodes[i], 8) else [];
    ItemStoresCombine(c.buf, c1.buf, c2.buf, r.buf, c.left, mid, rnext, c.right, LE(rnext, 8), ptr);
  }

  /** The first two stores of one item: the cursors after the child pointer and after the
      offset, and what each store leaves in the buffer. */
  lemma WriteItemHead(n: Node, i: nat, c: Cursor, mid: int, rnext: int) returns (c1: Cursor, c2: Cursor)
    requires i < |n.items| && (!IsLeaf(n) ==> i < |n.childNodes|)
    requires mid == (if IsLeaf(n) then c.left else c.left + 8)
    requires rnext == c.right - ItemSize(n.items[i])
    requires 0 <= c.left && mid + 8 <= rnext && c.right < |c.buf|
    ensures WriteChildPointer(n, i, c) == Ok(c1)
    ensures WriteOffset(c1, c1.right - |n.items[i].key| - |n.items[i].value| - 2) == Ok(c2)
    ensures c1.left == mid && c2.left == mid + 2 && c2.right == c.right && |c2.buf| == |c.buf|
    ensures SameOutside(c.buf, c1.buf, c.left, mid)
    ensures i < |n.childNodes| ==> Holds(c1.buf, c.left, LE(n.childNodes[i], 8))
    ensures i >= |n.childNodes| ==> mid == c.left
    ensures SameOutside(c1.buf, c2.buf, mid, mid + 8) && Holds(c2.buf, mid, LE(rnext, 8))
  {
    var item := n.items[i];
    ChildPointerSpec(n, i, c);
    c1 := WriteChildPointer(n, i, c).value;
    var off := c1.right - |item.key| - |item.value| - 2;
    assert off == rnext && c1.left == mid;
    OffsetSpec(c1, off);
    c2 := WriteOffset(c1, off).value;
  }

  /** The three stores of one item, composed: a child pointer `ptr` at [lo, mid), the 8-byte
      offset store at [mid, mid + 8), the record at [lo2, hi2) above both. */
  lemma ItemStoresCombine(b0: seq<byte>, b1: seq<byte>, b2: seq<byte>, b3: seq<byte>,
                          lo: int, mid: int, lo2: int, hi2: int, off: seq<byte>, ptr: seq<byte>)
    requires |off| == 8 && mid == lo + |ptr| && mid + 8 <= lo2
    requires SameOutside(b0, b1, lo, mid) && Holds(b1, lo, ptr)
    requires SameOutside(b1, b2, mid, mid + 8) && Holds(b2, mid, off)
    requires SameOutside(b2, b3, lo2, hi2)
    ensures Holds(b3, mid, off) && Holds(b3, lo, ptr)
    ensures SameOutside2(b0, b3, lo, mid + 8, lo2, hi2)
  {
    HoldsKept(b1, b2, lo, ptr, mid, mid + 8);
    HoldsKept(b2, b3, lo, ptr, lo2, hi2);
    HoldsKept(b2, b3, mid, off, lo2, hi2);
    SameWiden(b0, b1, lo, mid, lo, mid + 8);
    SameWiden(b1, b2, mid, mid + 8, lo, mid + 8);
    SameCompose(b0, b1, b2, b3, lo, mid + 8, lo2, hi2);
  }

  lemma WriteItemSteps(n: Node, i: nat, c: Cursor, c1: Cursor, c2: Cursor, r: Cursor)
    requires i < |n.items| && WriteChildPointer(n, i, c) == Ok(c1)
    requires WriteOffset(c1, c1.right - |n.items[i].key| - |n.items[i].value| - 2) == Ok(c2)
    requires WriteRecord(c2, n.items[i]) == Ok(r)
    ensures WriteItem(n, i, c) == Ok(r)
  {
  }

  lemma SameCompose(b0: seq<byte>, b1: seq<byte>, b2: seq<byte>, b3: seq<byte>, lo: int, hi: int, lo2: int, hi2: int)
    requires SameOutside(b0, b1, lo, hi) && SameOutside(b1, b2, lo, hi) && SameOutside(b2, b3, lo2, hi2)
    ensures SameOutside2(b0, b3, lo, hi, lo2, hi2)
  {
  }

  /** The item loop keeps `Laid` from one item to the next. */
  lemma WriteItemLays(n: Node, orig: seq<byte>, c: Cursor, i: nat)
    requires Encodable(n, |orig|) && i < |n.items| && Laid(n, orig, c, i)
    ensures WriteItem(n, i, c).Ok? && Laid(n, orig, WriteItem(n, i, c).value, i + 1)
  {
    LeftBeforeRight(n, |orig|, i);
    WriteItemSpec(n, orig, c, i);
    LaidStep(n, orig, c, WriteItem(n, i, c).value, i);
  }

  /** A cursor that has the stores of item i on top of a cursor laid up to i is laid up to
      i + 1. */
  lemma LaidStep(n: Node, orig: seq<byte>, c: Cursor, r: Cursor, i: nat)
    requires Encodable(n, |orig|) && i < |n.items| && Laid(n, orig, c, i)
    requires r.left == LeftAt(n, i + 1) && r.right == RightAt(n, |orig|, i + 1)
    requires Holds(r.buf, OffsetAt(n, i), LE(RightAt(n, |orig|, i + 1), 8))
    requires i < |n.childNodes| ==> Holds(r.buf, LeftAt(n, i), LE(n.childNodes[i], 8))
    requires Holds(r.buf, RightAt(n, |orig|, i + 1), Record(n.items[i]))
    requires SameOutside2(c.buf, r.buf, LeftAt(n, i), OffsetAt(n, i) + 8, RightAt(n, |orig|, i + 1), RightAt(n, |orig|, i))
    ensures Laid(n, orig, r, i + 1)
  {
    var len := |orig|;
    LeftBeforeRight(n, len, i);
    var lo, hi := LeftAt(n, i), RightAt(n, len, i);
    SameOutside2Merge(c.buf, r.buf, lo, OffsetAt(n, i) + 8, RightAt(n, len, i + 1), hi);
    HoldsKept(c.buf, r.buf, 0, Header(n), lo, hi);
    OffsetsStep(n, len, c.buf, r.buf, i);
    PointersKept(n, c.buf, r.buf, i, lo, hi);
    PointersStep(n, r.buf, i);
    RecordsKept(n, len, c.buf, r.buf, i, lo, hi);
    RecordsStep(n, len, r.buf, i);
    UntouchedStep(orig, c.buf, r.buf, WrittenLeft(n, i), hi, OffsetAt(n, i) + 8, RightAt(n, len, i + 1),
                  lo, OffsetAt(n, i) + 8, RightAt(n, len, i + 1), hi);
  }

  /** Two windows that together lie in [lo, hi2) merge into one. */
  lemma SameOutside2Merge(b: seq<byte>, b': seq<byte>, lo: int, hi: int, lo2: int, hi2: int)
    requires SameOutside2(b, b', lo, hi, lo2, hi2) && lo <= hi <= lo2 <= hi2
    ensures SameOutside(b, b', lo, hi2)
  {
  }

  lemma PointersStep(n: Node, b: seq<byte>, i: nat)
    requires PointersHeld(n, b, i)
    requires i < |n.childNodes| ==> Holds(b, LeftAt(n, i), LE(n.childNodes[i], 8))
    ensures PointersHeld(n, b, i + 1)
  {
  }

  lemma RecordsStep(n: Node, len: int, b: seq<byte>, i: nat)
    requires i < |n.items| && RecordsHeld(n, len, b, i)
    requires Holds(b, RightAt(n, len, i + 1), Record(n.items[i]))
    ensures RecordsHeld(n, len, b, i + 1)
  {
  }

  /** The untouched gap shrinks to [lo', hi') when the stores stay in two windows outside it,
      neither reaching the last byte. */
  lemma UntouchedStep(orig: seq<byte>, b: seq<byte>, b': seq<byte>, lo: int, hi: int, lo': int, hi': int,
                      a1: int, a2: int, c1: int, c2: int)
    requires Untouched(orig, b, lo, hi) && SameOutside2(b, b', a1, a2, c1, c2)
    requires lo <= lo' && hi' <= hi && a2 <= lo' && hi' <= c1
    requires a2 <= |orig| - 1 && c2 <= |orig| - 1
    ensures Untouched(orig, b', lo', hi')
  {
  }

  /** The low two bytes of item i's 8-byte offset store are its offset. */
  lemma OffsetsStep(n: Node, len: int, b: seq<byte>, b': seq<byte>, i: nat)
    requires i < |n.items| && OffsetsHeld(n, len, b, i) && SameOutside(b, b', LeftAt(n, i), RightAt(n, len, i))
    requires Holds(b', OffsetAt(n, i), LE(RightAt(n, len, i + 1), 8))
    ensures OffsetsHeld(n, len, b', i + 1)
  {
    OffsetsKept(n, len, b, b', i, LeftAt(n, i), RightAt(n, len, i));
    LEPrefix(RightAt(n, len, i + 1), 8, 2);
    assert Holds(b', OffsetAt(n, i), LE(RightAt(n, len, i + 1), 8)[..2]);
  }

  lemma {:induction false} SerializeItemsLays(n: Node, orig: seq<byte>, c: Cursor, i: nat)
    requires Encodable(n, |orig|) && i <= |n.items| && Laid(n, orig, c, i)
    ensures SerializeItems(n, i, c).Ok? && Laid(n, orig, SerializeItems(n, i, c).value, |n.items|)
    decreases |n.items| - i
  {
    if i < |n.items| {
      var c' := LayNext(n, orig, c, i);
      SerializeItemsLays(n, orig, c', i + 1);
    } else {
      assert SerializeItems(n, i, c) == Ok(c);
    }
  }

  /** Item i written on a cursor laid up to i: the loop goes on from the cursor after it,
      which is laid up to i + 1. */
  lemma LayNext(n: Node, orig: seq<byte>, c: Cursor, i: nat) returns (c': Cursor)
    requires Encodable(n, |orig|) && i < |n.items| && Laid(n, orig, c, i)
    ensures Laid(n, orig, c', i + 1)
    ensures SerializeItems(n, i, c) == SerializeItems(n, i + 1, c')
  {
    WriteItemLays(n, orig, c, i);
    c' := WriteItem(n, i, c).value;
    SerializeItemsStep(n, i, c, c');
  }

  lemma SerializeItemsStep(n: Node, i: nat, c: Cursor, c': Cursor)
    requires i < |n.items| && WriteItem(n, i, c) == Ok(c')
    ensures SerializeItems(n, i, c) == SerializeItems(n, i + 1, c')
  {
  }

  /** The header stores set up `Laid` for the first item. */
  lemma HeaderLays(n: Node, buf: seq<byte>)
    requires Encodable(n, |buf|)
    ensures Put(buf, 0, [if IsLeaf(n) then 1 else 0]).Ok?
    ensures var b0 := Put(buf, 0, [if IsLeaf(n) then 1 else 0]).value;
      && Put(b0, 1, LE(|n.items|, 2)).Ok?
      && Laid(n, buf, Cursor(Put(b0, 1, LE(|n.items|, 2)).value, NodeHeaderSize, |buf| - 1), 0)
  {
    RecordsSizeMonotone(n.items, 0, |n.items|);
    var b0 := Put(buf, 0, [if IsLeaf(n) then 1 else 0]).value;
    var b1 := Put(b0, 1, LE(|n.items|, 2)).value;
    var h := Header(n);
    forall k | 0 <= k < |h|
      ensures b1[k] == h[k]
    {
    }
  }

  /** After the item loop, a leaf's page is finished: the zeros come from the high bytes of
      the last 8-byte offset store. */
  lemma FinishLeaf(n: Node, orig: seq<byte>, c: Cursor)
    requires Encodable(n, |orig|) && IsLeaf(n) && Laid(n, orig, c, |n.items|)
    ensures Encoded(n, orig, c.buf)
  {
    var m := |n.items|;
    if m > 0 {
      RecordsSizeMonotone(n.items, 0, m);
      HighBytesZero(c.buf, OffsetAt(n, m - 1), RightAt(n, |orig|, m));
    }
  }

  /** A value below 2^16 stored with an 8-byte store leaves zeros in the six high bytes. */
  lemma HighBytesZero(b: seq<byte>, p: int, v: int)
    requires 0 <= v < U16 && Holds(b, p, LE(v, 8))
    ensures forall k :: p + 2 <= k < p + 8 ==> b[k] == 0
  {
    Pow256Values();
    LEHighZero(v, 8, 2);
    forall k | p + 2 <= k < p + 8
      ensures b[k] == 0
    {
      assert b[p + (k - p)] == LE(v, 8)[k - p];
    }
  }

  /** After the item loop, an internal node's last child pointer completes the page. */
  lemma FinishInternal(n: Node, orig: seq<byte>, c: Cursor)
    requires Encodable(n, |orig|) && !IsLeaf(n) && Laid(n, orig, c, |n.items|)
    ensures Put(c.buf, c.left, LE(n.childNodes[|n.items|], 8)).Ok?
    ensures Encoded(n, orig, Put(c.buf, c.left, LE(n.childNodes[|n.items|], 8)).value)
  {
    var len := |orig|;
    var m := |n.items|;
    var last := n.childNodes[m];
    PutSame(c.buf, c.left, LE(last, 8));
    var out := Put(c.buf, c.left, LE(last, 8)).value;
    var lo, hi := LeftAt(n, m), LeftAt(n, m) + 8;
    HoldsKept(c.buf, out, 0, Header(n), lo, hi);
    OffsetsKept(n, len, c.buf, out, m, lo, hi);
    PointersKept(n, c.buf, out, m, lo, hi);
    LastPointer(n, out, m);
    RecordsKept(n, len, c.buf, out, m, lo, hi);
    assert Untouched(orig, out, LeftEnd(n), RightAt(n, len, m));
  }

  /** The pointer stored last completes the pointers. */
  lemma LastPointer(n: Node, b: seq<byte>, m: nat)
    requires |n.childNodes| == m + 1
    requires PointersHeld(n, b, m) && Holds(b, LeftAt(n, m), LE(n.childNodes[m], 8))
    ensures PointersHeld(n, b, m + 1)
  {
  }

  /** `serialize` succeeds on an encodable node and lays the page out as described above:
      header, per-item pointers and offsets, records packed downward from byte len-2, the
      bytes in between and the last byte untouched, and (for a leaf) zeros in the six bytes
      past the last offset that its 8-byte store reached. */
  lemma SerializeLayout(n: Node, buf: seq<byte>)
    requires Encodable(n, |buf|)
    ensures Serialize(n, buf).Ok?
    ensures Encoded(n, buf, Serialize(n, buf).value)
  {
    HeaderLays(n, buf);
    var b0 := Put(buf, 0, [if IsLeaf(n) then 1 else 0]).value;
    var b1 := Put(b0, 1, LE(|n.items|, 2)).value;
    var c0 := Cursor(b1, NodeHeaderSize, |buf| - 1);
    SerializeItemsLays(n, buf, c0, 0);
    var c := SerializeItems(n, 0, c0).value;
    if IsLeaf(n) {
      FinishLeaf(n, buf, c);
      assert Serialize(n, buf) == Ok(c.buf);
    } else {
      FinishInternal(n, buf, c);
      assert Serialize(n, buf) == Put(c.buf, c.left, LE(n.childNodes[|n.items|], 8));
    }
  }

  /** Reading back one record stored at `r`, with the positions computed in 16-bit
      arithmetic as the read loop does; nothing wraps below 2^16. */
  lemma ReadRecordSpec(out: seq<byte>, r: int, item: Item)
    requires Holds(out, r, Record(item)) && |item.key| < 256 && |item.value| < 256
    requires r + ItemSize(item) < U16
    ensures ReadRecord(out, r) == Ok(item)
  {
    ReadRecordParts(out, r, item);
    assert item == Item(item.key, item.value);
  }

  /** The four reads of one record, each at its 16-bit position. */
  lemma ReadRecordParts(out: seq<byte>, r: int, item: Item)
    requires Holds(out, r, Record(item)) && |item.key| < 256 && |item.value| < 256
    requires r + ItemSize(item) < U16
    ensures At(out, r) == Ok(|item.key|)
    ensures var o1 := Wrap16(r + 1); Slice(out, o1, Wrap16(o1 + |item.key|)) == Ok(item.key)
    ensures var o2 := Wrap16(Wrap16(r + 1) + |item.key|); At(out, o2) == Ok(|item.value|)
    ensures var o3 := Wrap16(Wrap16(Wrap16(r + 1) + |item.key|) + 1);
      Slice(out, o3, Wrap16(o3 + |item.value|)) == Ok(item.value)
  {
    var rec := Record(item);
    var klen := |item.key|;
    var vlen := |item.value|;
    Wrap16Id(r + 1);
    Wrap16Id(r + 1 + klen);
    Wrap16Id(r + 2 + klen);
    Wrap16Id(r + 2 + klen + vlen);
    assert out[r] == rec[0];
    assert out[r + 1..r + 1 + klen] == item.key by {
      forall k | 0 <= k < klen
        ensures out[r + 1 + k] == item.key[k]
      {
        assert rec[1 + k] == item.key[k];
      }
    }
    assert out[r + 1 + klen] == rec[1 + klen];
    assert out[r + 2 + klen..r + 2 + klen + vlen] == item.value by {
      forall k | 0 <= k < vlen
        ensures out[r + 2 + klen + k] == item.value[k]
      {
        assert rec[2 + klen + k] == item.value[k];
      }
    }
  }

  /** One pass of the read loop, once the child pointer has been read and the offset found
      points at a stored record that lies below 2^16. */
  lemma ReadItemSpec(out: seq<byte>, internal: bool, d: Decoded, d1: Decoded, r: int, item: Item)
    requires ReadChildPointer(out, internal, d) == Ok(d1) && ReadU16(out, d1.left) == Ok(r)
    requires r + ItemSize(item) < U16
    requires Holds(out, r, Record(item)) && |item.key| < 256 && |item.value| < 256
    ensures ReadItem(out, internal, d) == Ok(Decoded(d1.left + 2, d1.childNodes, d1.items + [item]))
  {
    ReadRecordSpec(out, r, item);
  }

  /** What the read loop gathers from item j: its child pointer (internal nodes) and the
      item, with the left cursor moved to the next slot. */
  function Step(n: Node, j: nat, d: Decoded): Decoded
    requires j < |n.items| && (IsLeaf(n) || |n.childNodes| == |n.items| + 1)
  {
    Decoded(LeftAt(n, j + 1),
            d.childNodes + (if IsLeaf(n) then [] else [n.childNodes[j]]),
            d.items + [n.items[j]])
  }

  /** What an encoded page holds for item i, spelled out from `Encoded`. */
  lemma EncodedItem(n: Node, orig: seq<byte>, out: seq<byte>, i: nat)
    requires Encodable(n, |orig|) && Encoded(n, orig, out) && i < |n.items|
    ensures Holds(out, OffsetAt(n, i), LE(RightAt(n, |orig|, i + 1), 2))
    ensures !IsLeaf(n) ==> Holds(out, LeftAt(n, i), LE(n.childNodes[i], 8))
    ensures Holds(out, RightAt(n, |orig|, i + 1), Record(n.items[i]))
    ensures 0 <= RightAt(n, |orig|, i + 1) && RightAt(n, |orig|, i + 1) + ItemSize(n.items[i]) < U16
    ensures |n.items[i].key| < 256 && |n.items[i].value| < 256
  {
    LeftBeforeRight(n, |orig|, i);
  }

  /** The read loop reads item i back from its stored pointer, offset and record. */
  lemma ReadItemAt(n: Node, out: seq<byte>, i: nat, d: Decoded, r: int)
    requires i < |n.items| && (IsLeaf(n) || |n.childNodes| == |n.items| + 1) && d.left == LeftAt(n, i)
    requires Holds(out, OffsetAt(n, i), LE(r, 2))
    requires !IsLeaf(n) ==> Holds(out, LeftAt(n, i), LE(n.childNodes[i], 8))
    requires Holds(out, r, Record(n.items[i]))
    requires 0 <= r && r + ItemSize(n.items[i]) < U16
    requires |n.items[i].key| < 256 && |n.items[i].value| < 256
    ensures ReadItem(out, !IsLeaf(n), d) == Ok(Step(n, i, d))
  {
    var item := n.items[i];
    var d1 := ChildPointerRead(n, out, i, d);
    ReadU16Of(out, OffsetAt(n, i), r);
    ReadItemSpec(out, !IsLeaf(n), d, d1, r, item);
  }

  /** The child pointer item i reads back (none in a leaf), and what the loop has gathered
      once item i is read too. */
  lemma ChildPointerRead(n: Node, out: seq<byte>, i: nat, d: Decoded) returns (d1: Decoded)
    requires i < |n.items| && (IsLeaf(n) || |n.childNodes| == |n.items| + 1) && d.left == LeftAt(n, i)
    requires !IsLeaf(n) ==> Holds(out, LeftAt(n, i), LE(n.childNodes[i], 8))
    ensures ReadChildPointer(out, !IsLeaf(n), d) == Ok(d1) && d1.left == OffsetAt(n, i)
    ensures Decoded(d1.left + 2, d1.childNodes, d1.items + [n.items[i]]) == Step(n, i, d)
  {
    if IsLeaf(n) {
      d1 := d;
      assert d.childNodes + [] == d.childNodes;
    } else {
      d1 := Decoded(d.left + 8, d.childNodes + [n.childNodes[i]], d.items);
      ReadU64Of(out, LeftAt(n, i), n.childNodes[i]);
      PointerReadsBack(out, d, n.childNodes[i]);
    }
  }

  /** A child pointer that reads as `v` at the cursor is appended as `v`. */
  lemma PointerReadsBack(out: seq<byte>, d: Decoded, v: u64)
    requires ReadU64(out, d.left) == Ok(v)
    ensures ReadChildPointer(out, true, d) == Ok(Decoded(d.left + 8, d.childNodes + [v], d.items))
  {
  }

  /** Every item from i on reads back, whatever the loop had gathered before it. */
  ghost predicate ReadsItems(n: Node, out: seq<byte>, i: nat)
    requires IsLeaf(n) || |n.childNodes| == |n.items| + 1
  {
    forall j: nat, d: Decoded :: i <= j < |n.items| && d.left == LeftAt(n, j) ==>
      ReadItem(out, !IsLeaf(n), d) == Ok(Step(n, j, d))
  }

  lemma EncodedReadsItems(n: Node, orig: seq<byte>, out: seq<byte>)
    requires Encodable(n, |orig|) && Encoded(n, orig, out)
    ensures ReadsItems(n, out, 0)
  {
    forall j: nat, d: Decoded | j < |n.items| && d.left == LeftAt(n, j)
      ensures ReadItem(out, !IsLeaf(n), d) == Ok(Step(n, j, d))
    {
      EncodedItem(n, orig, out, j);
      ReadItemAt(n, out, j, d, RightAt(n, |orig|, j + 1));
    }
  }

  /** The child pointers a suffix of the item loop reads. */
  function KidsFrom(n: Node, i: nat): seq<u64>
    requires i <= |n.items|
    requires IsLeaf(n) || |n.childNodes| == |n.items| + 1
  {
    if IsLeaf(n) then [] else n.childNodes[i..|n.items|]
  }

  lemma DeserializeItemsStep(buf: seq<byte>, internal: bool, count: nat, i: nat, d: Decoded, d2: Decoded)
    requires i < count && ReadItem(buf, internal, d) == Ok(d2)
    ensures DeserializeItems(buf, internal, count, i, d) == DeserializeItems(buf, internal, count, i + 1, d2)
  {
  }

  /** Reading items i.. of a page where they all read back yields exactly those items and
      their child pointers, appended to whatever the loop had gathered before. */
  lemma {:induction false} DeserializeItemsReads(n: Node, out: seq<byte>, i: nat, d: Decoded)
    requires IsLeaf(n) || |n.childNodes| == |n.items| + 1
    requires i <= |n.items| && ReadsItems(n, out, i) && d.left == LeftAt(n, i)
    ensures DeserializeItems(out, !IsLeaf(n), |n.items|, i, d)
         == Ok(Decoded(LeftAt(n, |n.items|), d.childNodes + KidsFrom(n, i), d.items + n.items[i..]))
    decreases |n.items| - i
  {
    var m := |n.items|;
    if i == m {
      assert KidsFrom(n, i) == [] && n.items[i..] == [];
      assert d.childNodes + KidsFrom(n, i) == d.childNodes && d.items + n.items[i..] == d.items;
    } else {
      var d2 := Step(n, i, d);
      DeserializeItemsStep(out, !IsLeaf(n), m, i, d, d2);
      DeserializeItemsReads(n, out, i + 1, d2);
      StepAccumulates(n, i, d);
    }
  }

  /** Gathering item i and then the items after it is gathering the items from i on. */
  lemma StepAccumulates(n: Node, i: nat, d: Decoded)
    requires i < |n.items| && (IsLeaf(n) || |n.childNodes| == |n.items| + 1)
    ensures Step(n, i, d).childNodes + KidsFrom(n, i + 1) == d.childNodes + KidsFrom(n, i)
    ensures Step(n, i, d).items + n.items[i + 1..] == d.items + n.items[i..]
  {
    var m := |n.items|;
    assert n.items[i..] == [n.items[i]] + n.items[i + 1..];
    if !IsLeaf(n) {
      assert n.childNodes[i..m] == [n.childNodes[i]] + n.childNodes[i + 1..m];
    }
  }

  /** What `deserialize` needs of an encoded page. */
  lemma EncodedFacts(n: Node, orig: seq<byte>, out: seq<byte>)
    requires Encodable(n, |orig|) && Encoded(n, orig, out)
    ensures Holds(out, 0, Header(n)) && |n.items| < U16 && ReadsItems(n, out, 0)
    ensures !IsLeaf(n) ==> Holds(out, LeftAt(n, |n.items|), LE(n.childNodes[|n.items|], 8))
  {
    RecordsSizeMonotone(n.items, 0, |n.items|);
    EncodedReadsItems(n, orig, out);
  }

  /** `deserialize` of a page whose header, items and last child pointer read back appends
      the node's child pointers and items to those of the target. */
  lemma DeserializeReads(n: Node, out: seq<byte>, into: Node)
    requires IsLeaf(n) || |n.childNodes| == |n.items| + 1
    requires Holds(out, 0, Header(n)) && |n.items| < U16 && ReadsItems(n, out, 0)
    requires !IsLeaf(n) ==> Holds(out, LeftAt(n, |n.items|), LE(n.childNodes[|n.items|], 8))
    ensures Deserialize(into, out) == Ok(Node(into.pageNum, into.childNodes + n.childNodes, into.items + n.items))
  {
    var m := |n.items|;
    HeaderReads(n, out);
    var d0 := Decoded(NodeHeaderSize, into.childNodes, into.items);
    DeserializeItemsReads(n, out, 0, d0);
    assert n.items[0..] == n.items;
    var d := Decoded(LeftAt(n, m), into.childNodes + KidsFrom(n, 0), into.items + n.items);
    assert DeserializeItems(out, !IsLeaf(n), m, 0, d0) == Ok(d);
    if !IsLeaf(n) {
      ReadU64Of(out, LeftAt(n, m), n.childNodes[m]);
      KidsThenLast(n);
      assert d.childNodes + [n.childNodes[m]] == into.childNodes + (KidsFrom(n, 0) + [n.childNodes[m]]);
      DeserializeTail(out, into, m, d, n.childNodes[m]);
    } else {
      assert d.childNodes == into.childNodes + n.childNodes;
      DeserializeTail(out, into, m, d, 0);
    }
  }

  /** The pointers the item loop reads, then the last one, are all the child pointers. */
  lemma KidsThenLast(n: Node)
    requires !IsLeaf(n) && |n.childNodes| == |n.items| + 1
    ensures KidsFrom(n, 0) + [n.childNodes[|n.items|]] == n.childNodes
  {
    var m := |n.items|;
    assert KidsFrom(n, 0) == n.childNodes[..m];
    assert n.childNodes == n.childNodes[..m] + [n.childNodes[m]];
  }

  /** The header reads back: the leaf flag and the item count. */
  lemma HeaderReads(n: Node, out: seq<byte>)
    requires Holds(out, 0, Header(n)) && |n.items| < U16
    ensures At(out, 0) == Ok(if IsLeaf(n) then 1 else 0)
    ensures ReadU16(out, 1) == Ok(|n.items|)
  {
    assert out[0] == Header(n)[0];
    assert Holds(out, 1, LE(|n.items|, 2)) by {
      assert out[1] == Header(n)[1] && out[2] == Header(n)[2];
    }
    ReadU16Of(out, 1, |n.items|);
  }

  /** How `deserialize` finishes once the header and the read loop are known. */
  lemma DeserializeTail(out: seq<byte>, into: Node, count: nat, d: Decoded, last: u64)
    requires At(out, 0).Ok? && ReadU16(out, 1) == Ok(count)
    requires DeserializeItems(out, At(out, 0).value == 0, count, 0, Decoded(NodeHeaderSize, into.childNodes, into.items)) == Ok(d)
    requires At(out, 0).value == 0 ==> ReadU64(out, d.left) == Ok(last)
    ensures Deserialize(into, out)
         == Ok(Node(into.pageNum, if At(out, 0).value == 0 then d.childNodes + [last] else d.childNodes, d.items))
  {
  }

  /** Round trip: deserializing a serialized encodable node appends exactly its child
      pointers and items to those the target node already holds, and keeps the target's page
      number. */
  lemma RoundTrip(n: Node, buf: seq<byte>, into: Node)
    requires Encodable(n, |buf|)
    ensures Serialize(n, buf).Ok?
    ensures Deserialize(into, Serialize(n, buf).value)
         == Ok(Node(into.pageNum, into.childNodes + n.childNodes, into.items + n.items))
  {
    SerializeLayout(n, buf);
    var out := Serialize(n, buf).value;
    EncodedFacts(n, buf, out);
    DeserializeReads(n, out, into);
  }

  /** Into an empty node the round trip gives back exactly the node's child pointers and
      items. */
  lemma RoundTripEmpty(n: Node, buf: seq<byte>, pageNum: u64)
    requires Encodable(n, |buf|)
    ensures Serialize(n, buf).Ok?
    ensures Deserialize(Node(pageNum, [], []), Serialize(n, buf).value) == Ok(Node(pageNum, n.childNodes, n.items))
  {
    RoundTrip(n, buf, Node(pageNum, [], []));
    EmptyPrefixes(pageNum, n);
  }

  lemma EmptyPrefixes(pageNum: u64, n: Node)
    ensures Node(pageNum, [] + n.childNodes, [] + n.items) == Node(pageNum, n.childNodes, n.items)
  {
    assert [] + n.childNodes == n.childNodes && [] + n.items == n.items;
  }
  /** The 8-byte offset store needs room even where a 2-byte slot would do: a leaf with one
      empty item fits a 10-byte page in the layout (header 3, slot 2, record 2, last byte 1),
      yet the store at byte 3 reaches byte 11 and `serialize` panics. */
  lemma OffsetStoreNeedsRoom(buf: seq<byte>)
    requires |buf| == 10
    ensures Serialize(Node(0, [], [Item([], [])]), buf) == Err(Panic)
  {
    var n := Node(0, [], [Item([], [])]);
    var b0 := Put(buf, 0, [1]).value;
    var b1 := Put(b0, 1, LE(1, 2)).value;
    assert WriteOffset(Cursor(b1, 3, 9), 7) == Err(Panic);
    assert WriteItem(n, 0, Cursor(b1, 3, 9)) == Err(Panic);
  }

  /** A leaf whose last offset store runs into its last record still round-trips: the
      store's high bytes are zero, and the record, written after it, overwrites them.
      With one empty item on a 12-byte page the store covers bytes 3-10 and the record
      bytes 9-10, so the leaf is not encodable, yet it reads back. */
  lemma NearlyFullLeafRoundTrips(buf: seq<byte>)
    requires |buf| == 12
    ensures !Encodable(Node(0, [], [Item([], [])]), 12)
    ensures Serialize(Node(0, [], [Item([], [])]), buf).Ok?
    ensures Deserialize(NewEmptyNode(), Serialize(Node(0, [], [Item([], [])]), buf).value)
         == Ok(Node(0, [], [Item([], [])]))
  {
    NearlyFullLeafWrites(buf);
    NearlyFullLeafReads(buf[11]);
  }

  /** The page the nearly full leaf is written to: the offset store's zero bytes 9 and
      10 are where the record's two zero length bytes go. */
  lemma NearlyFullLeafWrites(buf: seq<byte>)
    requires |buf| == 12
    ensures Serialize(Node(0, [], [Item([], [])]), buf) == Ok([1, 1, 0, 9, 0, 0, 0, 0, 0, 0, 0, buf[11]])
  {
    var n := Node(0, [], [Item([], [])]);
    var page: seq<byte> := [1, 1, 0, 9, 0, 0, 0, 0, 0, 0, 0, buf[11]];
    var b1 := NearlyFullLeafHeader(buf);
    NearlyFullLeafOffset(b1, buf[11]);
    assert b1[..3] + [9, 0, 0, 0, 0, 0, 0, 0, buf[11]] == page;
    NearlyFullLeafRecord(page);
    assert WriteItem(n, 0, Cursor(b1, 3, 11)) == Ok(Cursor(page, 5, 9));
    assert SerializeItems(n, 0, Cursor(b1, 3, 11)) == Ok(Cursor(page, 5, 9));
  }

  /** The header of the nearly full leaf: the leaf flag and an item count of one. */
  lemma NearlyFullLeafHeader(buf: seq<byte>) returns (b1: seq<byte>)
    requires |buf| == 12
    ensures Put(buf, 0, [1]).Ok? && Put(Put(buf, 0, [1]).value, 1, LE(1, 2)) == Ok(b1)
    ensures b1 == [1, 1, 0] + buf[3..]
  {
    assert LE(1, 2) == [1, 0];
    var b0 := Put(buf, 0, [1]).value;
    assert b0 == [1] + buf[1..];
    b1 := [1, 1, 0] + buf[3..];
    assert b0[..1] + [1, 0] + b0[3..] == b1;
  }

  /** The 8-byte offset store at byte 3 of the nearly full leaf. */
  lemma NearlyFullLeafOffset(b1: seq<byte>, x: byte)
    requires |b1| == 12 && b1[11] == x
    ensures WriteOffset(Cursor(b1, 3, 11), 9)
         == Ok(Cursor(b1[..3] + [9, 0, 0, 0, 0, 0, 0, 0, x], 5, 11))
  {
    assert LE(9, 8) == [9, 0, 0, 0, 0, 0, 0, 0];
    assert b1[..3] + [9, 0, 0, 0, 0, 0, 0, 0] + b1[11..] == b1[..3] + [9, 0, 0, 0, 0, 0, 0, 0, x];
  }

  /** The empty record of the nearly full leaf rewrites bytes 9 and 10 with the zeros the
      offset store left there. */
  lemma NearlyFullLeafRecord(page: seq<byte>)
    requires |page| == 12 && page[9] == 0 && page[10] == 0
    ensures WriteRecord(Cursor(page, 5, 11), Item([], [])) == Ok(Cursor(page, 5, 9))
  {
    assert Copy(page, 11, []) == Ok(page) by { assert page[..11] + [] + page[11..] == page; }
    assert Put(page, 10, [0]) == Ok(page) by { assert page[..10] + [0] + page[11..] == page; }
    assert Copy(page, 10, []) == Ok(page) by { assert page[..10] + [] + page[10..] == page; }
    assert Put(page, 9, [0]) == Ok(page) by { assert page[..9] + [0] + page[10..] == page; }
  }

  /** The nearly full leaf's page reads back as the leaf. */
  lemma NearlyFullLeafReads(x: byte)
    ensures Deserialize(NewEmptyNode(), [1, 1, 0, 9, 0, 0, 0, 0, 0, 0, 0, x])
         == Ok(Node(0, [], [Item([], [])]))
  {
    var page: seq<byte> := [1, 1, 0, 9, 0, 0, 0, 0, 0, 0, 0, x];
    assert page[1..3] == [1, 0] && FromLE([1, 0]) == 1;
    assert page[3..5] == [9, 0] && FromLE([9, 0]) == 9;
    assert ReadRecord(page, 9) == Ok(Item([], []));
  }
}
