/** The alternative fixed-layout node of btree.go, `type | nkeys | pointers | offsets |
    key-values`, with its accessors. Positions are computed in `uint16`, so they wrap
    modulo 2^16; every buffer access keeps Go's bounds check and panics as `Err(Panic)`.

    The accessors are modelled as written. Two guards are defective: `getPtr`/`setPtr`
    refuse exactly the indexes a node has, and the guard of `offsetPos` never fires. The
    `...Checked` members state the evidently intended guards and the round trips that hold
    for them. */
module BNodeLayout {
  import opened Results
  import opened Bytes

  const BNodeNode: int := 1
  const BNodeLeaf: int := 2
  const Header: int := 4
  const BTreePageSize: int := 4096
  const BTreeMaxKeySize: int := 1000
  const BTreeMaxValSize: int := 3000

  datatype BNode = BNode(data: seq<byte>)

  /** `btype`: the little-endian u16 at bytes 0-1. */
  function BType(node: BNode): (r: Result<u16>)
    ensures r.Ok? <==> |node.data| >= 2
  {
    ReadU16(node.data, 0)
  }

  /** `nkeys`: the little-endian u16 at bytes 2-3. */
  function NKeys(node: BNode): (r: Result<u16>)
    ensures r.Ok? <==> |node.data| >= 4
  {
    ReadU16(node.data, 2)
  }

  /** `setHeader`. */
  function SetHeader(node: BNode, btype: u16, nkeys: u16): (r: Result<BNode>)
    ensures r.Ok? <==> |node.data| >= 4
    ensures r.Ok? ==> |r.value.data| == |node.data|
  {
    var d0 :- Put(node.data, 0, LE(btype, 2));
    var d1 :- Put(d0, 2, LE(nkeys, 2));
    Ok(BNode(d1))
  }

  /** Byte position of pointer `index`, `HEADER + 8*index` in uint16. */
  function PtrPos(index: u16): u16 {
    Wrap16(Header + 8 * index)
  }

  /** `getPtr` as written: it panics when `index < nkeys`. */
  function GetPtr(node: BNode, index: u16): (r: Result<u64>)
    ensures NKeys(node).Ok? && index < NKeys(node).value ==> r == Err(Panic)
    ensures r.Ok? <==> NKeys(node).Ok? && index >= NKeys(node).value && PtrPos(index) + 8 <= |node.data|
  {
    var k :- NKeys(node);
    if index < k then Err(Panic)
    else ReadU64(node.data, PtrPos(index))
  }

  /** `setPtr` as written: it panics when `index < nkeys`. */
  function SetPtr(node: BNode, index: u16, value: u64): (r: Result<BNode>)
    ensures r.Ok? ==> |r.value.data| == |node.data|
    ensures NKeys(node).Ok? && index < NKeys(node).value ==> r == Err(Panic)
    ensures r.Ok? <==> NKeys(node).Ok? && index >= NKeys(node).value && PtrPos(index) + 8 <= |node.data|
  {
    var k :- NKeys(node);
    if index < k then Err(Panic)
    else
      var d :- Put(node.data, PtrPos(index), LE(value, 8));
      Ok(BNode(d))
  }

  /** `offsetPos` as written: the guard `index < 1 && index > nkeys` can never hold, and
      `index - 1` wraps to 65535 for index 0. */
  function OffsetPos(node: BNode, index: u16): (r: Result<u16>)
    ensures r.Ok? <==> |node.data| >= 4
    ensures r.Ok? && 1 <= index && Header + 8 * NKeys(node).value + 2 * index <= U16 ==>
      r.value == Header + 8 * NKeys(node).value + 2 * (index - 1)
    ensures r.Ok? && index == 0 && Header + 8 * NKeys(node).value < U16 ==>
      r.value == Header + 8 * NKeys(node).value - 2
  {
    var k :- NKeys(node);
    if index < 1 && index > k then Err(Panic)
    else Ok(Wrap16(Header + 8 * k + 2 * Wrap16(index - 1)))
  }

  /** `getOffset`: offset 0 is implicit and reads nothing. */
  function GetOffset(node: BNode, index: u16): (r: Result<u16>)
    ensures index == 0 ==> r == Ok(0)
    ensures index > 0 ==> (r.Ok? <==> OffsetPos(node, index).Ok? && OffsetPos(node, index).value + 2 <= |node.data|)
  {
    if index == 0 then Ok(0)
    else
      var p :- OffsetPos(node, index);
      ReadU16(node.data, p)
  }

  /** `setOffset` as written, on top of the unguarded `offsetPos`. */
  function SetOffset(node: BNode, index: u16, offset: u16): (r: Result<BNode>)
    ensures r.Ok? ==> |r.value.data| == |node.data|
    ensures r.Ok? <==> OffsetPos(node, index).Ok? && OffsetPos(node, index).value + 2 <= |node.data|
  {
    var p :- OffsetPos(node, index);
    var d :- Put(node.data, p, LE(offset, 2));
    Ok(BNode(d))
  }

  /** `kvPos`: start of key-value pair `index`, after the pointers and the offsets. */
  function KvPos(node: BNode, index: u16): (r: Result<u16>)
    ensures NKeys(node).Ok? && index > NKeys(node).value ==> r == Err(Panic)
    ensures r.Ok? <==> NKeys(node).Ok? && index <= NKeys(node).value && GetOffset(node, index).Ok?
    ensures r.Ok? && Header + 10 * NKeys(node).value + GetOffset(node, index).value < U16 ==>
      Header + 10 * NKeys(node).value <= r.value
  {
    var k :- NKeys(node);
    if index > k then Err(Panic)
    else
      var o :- GetOffset(node, index);
      Ok(Wrap16(Header + 8 * k + 2 * k + o))
  }

  /** `getKey`: the `klen` bytes after the 4-byte length prefix at `kvPos(index)`. */
  function GetKey(node: BNode, index: u16): (r: Result<seq<byte>>)
    ensures NKeys(node).Ok? && index >= NKeys(node).value ==> r == Err(Panic)
    ensures r.Ok? ==> KvPos(node, index).Ok? && ReadU16(node.data, KvPos(node, index).value) == Ok(|r.value|)
  {
    var k :- NKeys(node);
    if index >= k then Err(Panic)
    else
      var pos :- KvPos(node, index);
      var klen :- ReadU16(node.data, pos);
      var start := Wrap16(pos + 4);
      Slice(node.data, start, start + klen)
  }

  /** `getVal`: the `vlen` bytes after the key of pair `index`. */
  function GetVal(node: BNode, index: u16): (r: Result<seq<byte>>)
    ensures NKeys(node).Ok? && index >= NKeys(node).value ==> r == Err(Panic)
    ensures r.Ok? ==> KvPos(node, index).Ok? && ReadU16(node.data, Wrap16(KvPos(node, index).value + 2)) == Ok(|r.value|)
  {
    var k :- NKeys(node);
    if index >= k then Err(Panic)
    else
      var pos :- KvPos(node, index);
      var klen :- ReadU16(node.data, pos);
      var vlen :- ReadU16(node.data, Wrap16(pos + 2));
      var start := Wrap16(pos + 4 + klen);
      Slice(node.data, start, start + vlen)
  }

  /** `nbytes`: where the key-value area ends. */
  function NBytes(node: BNode): (r: Result<u16>)
    ensures r.Ok? <==> NKeys(node).Ok? && GetOffset(node, NKeys(node).value).Ok?
    ensures r.Ok? && Header + 10 * NKeys(node).value + GetOffset(node, NKeys(node).value).value < U16 ==>
      r.value == Header + 10 * NKeys(node).value + GetOffset(node, NKeys(node).value).value
  {
    var k :- NKeys(node);
    KvPos(node, k)
  }

  /** The size of a node holding one key and one value of the maximum sizes. */
  const Node1Max: int := Header + 8 + 2 + 4 + BTreeMaxKeySize + BTreeMaxValSize

  /** `init`: panics when a one-key node of maximum sizes would not fit a page. */
  function Init(): (r: Result<int>)
    ensures r == Ok(4018)
  {
    if Node1Max > BTreePageSize then Err(Panic) else Ok(Node1Max)
  }

  // ---------------------------------------------------------------- header

  /** After `setHeader(t, k)` the header reads back as t and k, and no byte past the header
      changes. */
  lemma SetHeaderReads(node: BNode, btype: u16, nkeys: u16)
    requires |node.data| >= 4
    ensures SetHeader(node, btype, nkeys).Ok?
    ensures var n' := SetHeader(node, btype, nkeys).value;
      && BType(n') == Ok(btype) && NKeys(n') == Ok(nkeys)
      && n'.data[4..] == node.data[4..]
  {
    var d0 := Put(node.data, 0, LE(btype, 2)).value;
    var d1 := Put(d0, 2, LE(nkeys, 2)).value;
    Pow256Values();
    assert Holds(d1, 0, LE(btype, 2));
    assert Holds(d1, 2, LE(nkeys, 2));
    ReadU16Of(d1, 0, btype);
    ReadU16Of(d1, 2, nkeys);
  }

  // ---------------------------------------------------------------- pointers

  /** Pointer positions are 4 modulo 8, so even a wrapped one lies past the header. */
  lemma PtrPosPastHeader(index: u16)
    ensures Header <= PtrPos(index)
    ensures Header + 8 * index < U16 ==> PtrPos(index) == Header + 8 * index
  {
    var x := Header + 8 * index;
    var q := x / U16;
    assert x == U16 * q + x % U16;
    assert x % U16 == 4 + 8 * (index - 8192 * q);
  }

  /** As written, `getPtr` and `setPtr` panic for every index below `nkeys`: the pointers a
      node with keys actually has can be neither read nor written. */
  lemma PtrGuardInverted(node: BNode, index: u16, value: u64)
    requires NKeys(node).Ok? && index < NKeys(node).value
    ensures GetPtr(node, index) == Err(Panic)
    ensures SetPtr(node, index, value) == Err(Panic)
  {
  }

  /** As written, a pointer at an index at or past `nkeys` round-trips when its eight bytes
      fit the page. */
  lemma PtrRoundTrip(node: BNode, index: u16, value: u64)
    requires NKeys(node).Ok? && index >= NKeys(node).value
    requires PtrPos(index) + 8 <= |node.data|
    ensures SetPtr(node, index, value).Ok?
    ensures GetPtr(SetPtr(node, index, value).value, index) == Ok(value)
  {
    PutKeepsNKeys(node, PtrPos(index), LE(value, 8));
    PtrPosPastHeader(index);
    var d := Put(node.data, PtrPos(index), LE(value, 8)).value;
    ReadU64Of(d, PtrPos(index), value);
  }

  /** A store past the header leaves `nkeys` as it was. */
  lemma PutKeepsNKeys(node: BNode, pos: int, data: seq<byte>)
    requires Header <= pos && pos + |data| <= |node.data|
    ensures NKeys(BNode(Put(node.data, pos, data).value)) == NKeys(node)
  {
    var d := Put(node.data, pos, data).value;
    assert d[2..4] == node.data[2..4];
  }

  /** `getPtr` with the evidently intended guard: it panics for an index at or past
      `nkeys`. */
  function GetPtrChecked(node: BNode, index: u16): (r: Result<u64>)
    ensures NKeys(node).Ok? && index >= NKeys(node).value ==> r == Err(Panic)
  {
    var k :- NKeys(node);
    if index >= k then Err(Panic)
    else ReadU64(node.data, PtrPos(index))
  }

  /** `setPtr` with the evidently intended guard. */
  function SetPtrChecked(node: BNode, index: u16, value: u64): (r: Result<BNode>)
    ensures NKeys(node).Ok? && index >= NKeys(node).value ==> r == Err(Panic)
    ensures r.Ok? ==> |r.value.data| == |node.data|
  {
    var k :- NKeys(node);
    if index >= k then Err(Panic)
    else
      var d :- Put(node.data, PtrPos(index), LE(value, 8));
      Ok(BNode(d))
  }

  /** With the intended guard, every pointer below `nkeys` round-trips once the page holds
      the pointer array, and `nkeys` is kept. */
  lemma PtrCheckedRoundTrip(node: BNode, index: u16, value: u64)
    requires NKeys(node).Ok? && index < NKeys(node).value
    requires Header + 8 * NKeys(node).value <= |node.data|
    ensures SetPtrChecked(node, index, value).Ok?
    ensures NKeys(SetPtrChecked(node, index, value).value) == NKeys(node)
    ensures GetPtrChecked(SetPtrChecked(node, index, value).value, index) == Ok(value)
  {
    PtrPosPastHeader(index);
    PutKeepsNKeys(node, PtrPos(index), LE(value, 8));
    var d := Put(node.data, PtrPos(index), LE(value, 8)).value;
    ReadU64Of(d, PtrPos(index), value);
  }

  // ---------------------------------------------------------------- offsets

  /** As written, `offsetPos` never panics once `nkeys` can be read, whatever the index. */
  lemma OffsetPosNeverPanics(node: BNode, index: u16)
    requires |node.data| >= 4
    ensures OffsetPos(node, index).Ok?
  {
  }

  /** The guard's consequence: `setOffset(0, o)` on a node without keys writes `o` over the
      `nkeys` field (offset slot "-1" is bytes 2-3). */
  lemma SetOffsetZeroClobbersNKeys(node: BNode, o: u16)
    requires |node.data| >= 4 && NKeys(node) == Ok(0)
    ensures SetOffset(node, 0, o).Ok?
    ensures NKeys(SetOffset(node, 0, o).value) == Ok(o)
  {
    assert OffsetPos(node, 0) == Ok(2);
    var d := Put(node.data, 2, LE(o, 2)).value;
    assert Holds(d, 2, LE(o, 2));
    ReadU16Of(d, 2, o);
  }

  /** Offset 0 is implicit: `getOffset(0)` is 0 whatever the page holds, even after
      `setOffset(0, o)`. */
  lemma GetOffsetZero(node: BNode)
    ensures GetOffset(node, 0) == Ok(0)
  {
  }

  /** Where offset `index` lives when nothing wraps. */
  lemma OffsetPosValue(node: BNode, index: u16)
    requires NKeys(node).Ok? && 1 <= index
    requires Header + 8 * NKeys(node).value + 2 * index <= U16
    ensures OffsetPos(node, index) == Ok(Header + 8 * NKeys(node).value + 2 * (index - 1))
  {
  }

  /** For `index >= 1`, `setOffset` then `getOffset` gives the offset back, when the slot
      neither wraps nor leaves the page. */
  lemma OffsetRoundTrip(node: BNode, index: u16, o: u16)
    requires NKeys(node).Ok? && 1 <= index
    requires Header + 8 * NKeys(node).value + 2 * index <= |node.data|
    requires |node.data| <= U16
    ensures SetOffset(node, index, o).Ok?
    ensures GetOffset(SetOffset(node, index, o).value, index) == Ok(o)
  {
    OffsetPosValue(node, index);
    var p := Header + 8 * NKeys(node).value + 2 * (index - 1);
    PutKeepsNKeys(node, p, LE(o, 2));
    var n' := SetOffset(node, index, o).value;
    OffsetPosValue(n', index);
    ReadU16Of(n'.data, p, o);
  }

  /** `offsetPos` with the evidently intended guard: only slots 1..nkeys exist. */
  function OffsetPosChecked(node: BNode, index: u16): (r: Result<u16>)
    ensures NKeys(node).Ok? ==> (r.Ok? <==> 1 <= index <= NKeys(node).value)
    ensures r.Ok? ==>
      NKeys(node).Ok? &&
      (Header + 10 * NKeys(node).value <= U16 ==>
         Header + 8 * NKeys(node).value <= r.value < Header + 10 * NKeys(node).value)
  {
    var k :- NKeys(node);
    if index < 1 || index > k then Err(Panic)
    else Ok(Wrap16(Header + 8 * k + 2 * Wrap16(index - 1)))
  }

  /** `setOffset` on top of the intended guard. */
  function SetOffsetChecked(node: BNode, index: u16, offset: u16): (r: Result<BNode>)
    ensures r.Ok? ==> |r.value.data| == |node.data|
    ensures NKeys(node).Ok? && (index < 1 || index > NKeys(node).value) ==> r == Err(Panic)
  {
    var p :- OffsetPosChecked(node, index);
    var d :- Put(node.data, p, LE(offset, 2));
    Ok(BNode(d))
  }

  /** With the intended guard, `setOffset` never reaches the header or the pointers, keeps
      `nkeys` and round-trips, for every slot of a page that holds the offset array. */
  lemma OffsetCheckedRoundTrip(node: BNode, index: u16, o: u16)
    requires NKeys(node).Ok? && 1 <= index <= NKeys(node).value
    requires Header + 10 * NKeys(node).value <= |node.data| <= U16
    ensures SetOffsetChecked(node, index, o).Ok?
    ensures NKeys(SetOffsetChecked(node, index, o).value) == NKeys(node)
    ensures GetOffset(SetOffsetChecked(node, index, o).value, index) == Ok(o)
  {
    OffsetPosValue(node, index);
    var p := Header + 8 * NKeys(node).value + 2 * (index - 1);
    assert OffsetPosChecked(node, index) == Ok(p);
    PutKeepsNKeys(node, p, LE(o, 2));
    var n' := SetOffsetChecked(node, index, o).value;
    OffsetPosValue(n', index);
    ReadU16Of(n'.data, p, o);
  }

  // ---------------------------------------------------------------- key-values

  /** Pair `index` starts the stored offset past the first pair, and `nbytes` is the first
      pair's start plus the last offset: the key-value area holds exactly the bytes the
      offsets account for. Nothing wraps below 2^16 here. */
  lemma KvPosSpec(node: BNode, index: u16)
    requires NKeys(node).Ok? && index <= NKeys(node).value
    requires GetOffset(node, index).Ok? && GetOffset(node, NKeys(node).value).Ok?
    requires Header + 10 * NKeys(node).value + GetOffset(node, index).value < U16
    requires Header + 10 * NKeys(node).value + GetOffset(node, NKeys(node).value).value < U16
    ensures KvPos(node, 0).Ok? && KvPos(node, index).Ok? && NBytes(node).Ok?
    ensures KvPos(node, index).value - KvPos(node, 0).value == GetOffset(node, index).value
    ensures NBytes(node).value - KvPos(node, 0).value == GetOffset(node, NKeys(node).value).value
    ensures Header + 10 * NKeys(node).value <= KvPos(node, index).value <= U16
  {
    KvPosFirst(node);
  }

  /** The first pair starts right after the offsets: offset 0 is implicit. */
  lemma KvPosFirst(node: BNode)
    requires NKeys(node).Ok? && Header + 10 * NKeys(node).value < U16
    ensures KvPos(node, 0) == Ok(Header + 10 * NKeys(node).value)
  {
  }

  /** A key-value pair as the layout stores it: both lengths, then the key, then the value. */
  function EncodeKV(key: seq<byte>, val: seq<byte>): (r: seq<byte>)
    requires |key| < U16 && |val| < U16
    ensures |r| == 4 + |key| + |val|
  {
    LE(|key|, 2) + LE(|val|, 2) + key + val
  }

  /** The two length prefixes of a stored pair read back. */
  lemma KVLengths(d: seq<byte>, pos: int, key: seq<byte>, val: seq<byte>)
    requires |key| < U16 && |val| < U16 && Holds(d, pos, EncodeKV(key, val))
    ensures ReadU16(d, pos) == Ok(|key|)
    ensures ReadU16(d, pos + 2) == Ok(|val|)
  {
    var kv := EncodeKV(key, val);
    assert Holds(d, pos, LE(|key|, 2)) by {
      assert forall j :: 0 <= j < 2 ==> kv[j] == LE(|key|, 2)[j];
    }
    assert Holds(d, pos + 2, LE(|val|, 2)) by {
      assert forall j :: 0 <= j < 2 ==> kv[2 + j] == LE(|val|, 2)[j];
    }
    ReadU16Of(d, pos, |key|);
    ReadU16Of(d, pos + 2, |val|);
  }

  /** The key and the value bytes of a stored pair. */
  lemma KVBytes(d: seq<byte>, pos: int, key: seq<byte>, val: seq<byte>)
    requires |key| < U16 && |val| < U16 && Holds(d, pos, EncodeKV(key, val))
    ensures d[pos + 4..pos + 4 + |key|] == key
    ensures d[pos + 4 + |key|..pos + 4 + |key| + |val|] == val
  {
    var kv := EncodeKV(key, val);
    forall j | 0 <= j < |key|
      ensures d[pos + 4 + j] == key[j]
    {
      assert kv[4 + j] == key[j];
    }
    forall j | 0 <= j < |val|
      ensures d[pos + 4 + |key| + j] == val[j]
    {
      assert kv[4 + |key| + j] == val[j];
    }
  }

  /** `getKey` reads back the key of a pair stored at `kvPos(index)` for an index below
      `nkeys`, when its bytes neither wrap nor leave the page. */
  lemma GetKeyOf(node: BNode, index: u16, key: seq<byte>, val: seq<byte>)
    requires NKeys(node).Ok? && index < NKeys(node).value && KvPos(node, index).Ok?
    requires |key| < U16 && |val| < U16
    requires Holds(node.data, KvPos(node, index).value, EncodeKV(key, val))
    requires KvPos(node, index).value + 4 + |key| + |val| < U16
    ensures GetKey(node, index) == Ok(key)
  {
    var pos := KvPos(node, index).value;
    KVLengths(node.data, pos, key, val);
    KVBytes(node.data, pos, key, val);
    Wrap16Id(pos + 4);
  }

  /** `getVal` reads back the value of the same pair. */
  lemma GetValOf(node: BNode, index: u16, key: seq<byte>, val: seq<byte>)
    requires NKeys(node).Ok? && index < NKeys(node).value && KvPos(node, index).Ok?
    requires |key| < U16 && |val| < U16
    requires Holds(node.data, KvPos(node, index).value, EncodeKV(key, val))
    requires KvPos(node, index).value + 4 + |key| + |val| < U16
    ensures GetVal(node, index) == Ok(val)
  {
    var pos := KvPos(node, index).value;
    KVLengths(node.data, pos, key, val);
    KVBytes(node.data, pos, key, val);
    Wrap16Id(pos + 2);
    Wrap16Id(pos + 4 + |key|);
    var start := pos + 4 + |key|;
    assert Slice(node.data, start, start + |val|) == Ok(val);
    GetValSteps(node, index, pos, |key|, |val|, val);
  }

  lemma GetValSteps(node: BNode, index: u16, pos: int, klen: int, vlen: int, val: seq<byte>)
    requires NKeys(node).Ok? && index < NKeys(node).value && KvPos(node, index) == Ok(pos)
    requires ReadU16(node.data, pos) == Ok(klen) && ReadU16(node.data, Wrap16(pos + 2)) == Ok(vlen)
    requires Slice(node.data, Wrap16(pos + 4 + klen), Wrap16(pos + 4 + klen) + vlen) == Ok(val)
    ensures GetVal(node, index) == Ok(val)
  {
  }

  /** `getKey` and `getVal` panic for an index at or past `nkeys`. */
  lemma GetKeyValPastEnd(node: BNode, index: u16)
    requires NKeys(node).Ok? && index >= NKeys(node).value
    ensures GetKey(node, index) == Err(Panic)
    ensures GetVal(node, index) == Err(Panic)
  {
  }
}
