/** The page format of a B-tree node (node.go): a header and per-item slots written by a
    left cursor from the start of the page, and length-prefixed key/value records packed
    downward by a right cursor from the end of the page. Every buffer access keeps Go's
    bounds check, so an undersized page or a malformed node yields `Err(Panic)`. */
module NodeCodec {
  import opened Results
  import opened Bytes

  /** Width of a child page number in a node page (const.go). */
  const PageNumSize: int := 8
  /** Leaf flag byte plus 16-bit item count (const.go). */
  const NodeHeaderSize: int := 3

  /** A key/value pair. */
  datatype Item = Item(key: seq<byte>, value: seq<byte>)

  /** A node as held in memory: the page it lives on, its child page numbers (none for a
      leaf) and its items. */
  datatype Node = Node(pageNum: u64, childNodes: seq<u64>, items: seq<Item>)

  /** `NewEmptyNode`: a leaf with no items. */
  function NewEmptyNode(): (r: Node)
    ensures IsLeaf(r) && |r.items| == 0
  {
    Node(0, [], [])
  }

  /** A node is a leaf exactly when it has no child pointers. */
  predicate IsLeaf(n: Node) {
    |n.childNodes| == 0
  }

  /** The two write cursors of `serialize`. */
  datatype Cursor = Cursor(buf: seq<byte>, left: int, right: int)

  /** `serialize`: writes `n` into `buf` and returns the written buffer. */
  function Serialize(n: Node, buf: seq<byte>): (r: Result<seq<byte>>)
    ensures r.Ok? ==> |r.value| == |buf|
  {
    var b0 :- Put(buf, 0, [if IsLeaf(n) then 1 else 0]);
    // uint16(len(n.items)): LE keeps the low two bytes
    var b1 :- Put(b0, 1, LE(|n.items|, 2));
    var c :- SerializeItems(n, 0, Cursor(b1, NodeHeaderSize, |buf| - 1));
    if IsLeaf(n) then Ok(c.buf)
    else Put(c.buf, c.left, LE(n.childNodes[|n.childNodes| - 1], PageNumSize))
  }

  /** The item loop of `serialize`, from item `i` on. */
  function SerializeItems(n: Node, i: nat, c: Cursor): (r: Result<Cursor>)
    requires i <= |n.items|
    ensures r.Ok? ==> |r.value.buf| == |c.buf|
    ensures r.Ok? ==> r.value.left == c.left + (if IsLeaf(n) then 2 * (|n.items| - i) else 10 * (|n.items| - i))
    ensures r.Ok? ==> r.value.right <= c.right - 2 * (|n.items| - i)
    decreases |n.items| - i
  {
    if i == |n.items| then Ok(c)
    else
      var c' :- WriteItem(n, i, c);
      SerializeItems(n, i + 1, c')
  }

  /** One iteration of the item loop: the child pointer (internal nodes), the record
      offset, then the record itself. */
  function WriteItem(n: Node, i: nat, c: Cursor): (r: Result<Cursor>)
    requires i < |n.items|
    ensures r.Ok? ==> |r.value.buf| == |c.buf|
    ensures r.Ok? ==> r.value.left == c.left + (if IsLeaf(n) then 2 else 10)
    ensures r.Ok? ==> r.value.right == c.right - |n.items[i].key| - |n.items[i].value| - 2
    ensures !IsLeaf(n) && i >= |n.childNodes| ==> r == Err(Panic)
  {
    var item := n.items[i];
    var c1 :- WriteChildPointer(n, i, c);
    var c2 :- WriteOffset(c1, c1.right - |item.key| - |item.value| - 2);
    WriteRecord(c2, item)
  }

  /** `PutUint64(buf[leftPos:], childNodes[i])`; indexing a missing child panics. */
  function WriteChildPointer(n: Node, i: nat, c: Cursor): (r: Result<Cursor>)
    ensures r.Ok? ==> |r.value.buf| == |c.buf| && r.value.right == c.right
    ensures IsLeaf(n) ==> r == Ok(c)
    ensures !IsLeaf(n) && i >= |n.childNodes| ==> r == Err(Panic)
    ensures !IsLeaf(n) && i < |n.childNodes| ==> (r.Ok? <==> 0 <= c.left && c.left + PageNumSize <= |c.buf|)
    ensures r.Ok? && !IsLeaf(n) ==> r.value.left == c.left + PageNumSize
  {
    if IsLeaf(n) then Ok(c)
    else if i < |n.childNodes| then
      var b :- Put(c.buf, c.left, LE(n.childNodes[i], PageNumSize));
      Ok(Cursor(b, c.left + PageNumSize, c.right))
    else Err(Panic)
  }

  /** `PutUint64(buf[leftPos:], uint64(offset))` followed by `leftPos += 2`: eight bytes
      are stored although the cursor moves by two. */
  function WriteOffset(c: Cursor, offset: int): (r: Result<Cursor>)
    ensures r.Ok? <==> 0 <= c.left && c.left + 8 <= |c.buf|
    ensures r.Ok? ==> |r.value.buf| == |c.buf| && r.value.right == c.right && r.value.left == c.left + 2
  {
    var b :- Put(c.buf, c.left, LE(offset, 8));
    Ok(Cursor(b, c.left + 2, c.right))
  }

  /** Value, value length byte, key, key length byte, each written just below the previous
      one. `byte(len)` keeps the low eight bits of a length. */
  function WriteRecord(c: Cursor, item: Item): (r: Result<Cursor>)
    ensures r.Ok? ==> |r.value.buf| == |c.buf| && r.value.left == c.left
    ensures r.Ok? ==> r.value.right == c.right - |item.key| - |item.value| - 2
  {
    var klen := |item.key|;
    var vlen := |item.value|;
    var r1 := c.right - vlen;
    var b1 :- Copy(c.buf, r1, item.value);
    var r2 := r1 - 1;
    var b2 :- Put(b1, r2, [vlen % 256]);
    var r3 := r2 - klen;
    var b3 :- Copy(b2, r3, item.key);
    var r4 := r3 - 1;
    var b4 :- Put(b3, r4, [klen % 256]);
    Ok(Cursor(b4, c.left, r4))
  }

  /** What the read loop of `deserialize` has produced so far. */
  datatype Decoded = Decoded(left: int, childNodes: seq<u64>, items: seq<Item>)

  /** `deserialize`: reads a node from `buf` into `n`, appending to the items and child
      pointers `n` already has; the page number of `n` is kept. */
  function Deserialize(n: Node, buf: seq<byte>): (r: Result<Node>)
    ensures r.Ok? ==> r.value.pageNum == n.pageNum
  {
    var flag :- At(buf, 0);
    var count :- ReadU16(buf, 1);
    var d :- DeserializeItems(buf, flag == 0, count, 0, Decoded(NodeHeaderSize, n.childNodes, n.items));
    if flag == 0 then
      var last :- ReadU64(buf, d.left);
      Ok(Node(n.pageNum, d.childNodes + [last], d.items))
    else Ok(Node(n.pageNum, d.childNodes, d.items))
  }

  /** The read loop of `deserialize`, from item `i` of `count` on. */
  function DeserializeItems(buf: seq<byte>, internal: bool, count: nat, i: nat, d: Decoded): (r: Result<Decoded>)
    requires i <= count
    ensures r.Ok? ==> r.value.left == d.left + (if internal then 10 * (count - i) else 2 * (count - i))
    ensures r.Ok? ==> |r.value.items| == |d.items| + (count - i)
    ensures r.Ok? && internal ==> |r.value.childNodes| == |d.childNodes| + (count - i)
    ensures r.Ok? && !internal ==> r.value.childNodes == d.childNodes
    decreases count - i
  {
    if i == count then Ok(d)
    else
      var d' :- ReadItem(buf, internal, d);
      DeserializeItems(buf, internal, count, i + 1, d')
  }

  /** One iteration of the read loop: the child pointer (internal nodes), the record offset,
      then the record it points at. Offsets are `uint16`, so each step along a record wraps
      modulo 2^16. */
  function ReadItem(buf: seq<byte>, internal: bool, d: Decoded): (r: Result<Decoded>)
    ensures r.Ok? ==> r.value.left == d.left + (if internal then 10 else 2)
    ensures r.Ok? ==> |r.value.items| == |d.items| + 1 && r.value.items[..|d.items|] == d.items
    ensures r.Ok? && internal ==> |r.value.childNodes| == |d.childNodes| + 1
    ensures r.Ok? && !internal ==> r.value.childNodes == d.childNodes
    ensures r.Ok? ==> |r.value.items[|d.items|].key| < 256 && |r.value.items[|d.items|].value| < 256
  {
    var d1 :- ReadChildPointer(buf, internal, d);
    var offset :- ReadU16(buf, d1.left);
    var item :- ReadRecord(buf, offset);
    Ok(Decoded(d1.left + 2, d1.childNodes, d1.items + [item]))
  }

  /** The record the offset of one pass points at: a key-length byte, the key, a
      value-length byte, the value, each position a `uint16`. */
  function ReadRecord(buf: seq<byte>, offset: int): (r: Result<Item>)
    ensures r.Ok? ==> At(buf, offset) == Ok(|r.value.key|)
    ensures r.Ok? ==> |r.value.key| < 256 && |r.value.value| < 256
  {
    var klen :- At(buf, offset);
    var o1 := Wrap16(offset + 1);
    var key :- Slice(buf, o1, Wrap16(o1 + klen));
    var o2 := Wrap16(o1 + klen);
    var vlen :- At(buf, o2);
    var o3 := Wrap16(o2 + 1);
    var value :- Slice(buf, o3, Wrap16(o3 + vlen));
    Ok(Item(key, value))
  }

  /** The child pointer of one pass of the read loop, for an internal node. */
  function ReadChildPointer(buf: seq<byte>, internal: bool, d: Decoded): (r: Result<Decoded>)
    ensures !internal ==> r == Ok(d)
    ensures internal ==> (r.Ok? <==> 0 <= d.left && d.left + PageNumSize <= |buf|)
    ensures r.Ok? && internal ==>
      && r.value.left == d.left + PageNumSize && r.value.items == d.items
      && r.value.childNodes == d.childNodes + [FromLE(buf[d.left..d.left + PageNumSize])]
  {
    if internal then
      var p :- ReadU64(buf, d.left);
      Ok(Decoded(d.left + PageNumSize, d.childNodes + [p], d.items))
    else Ok(d)
  }
}
