/** Key lookup inside one node and the descent through child pages (node.go). The page
    store behind `getNode` is a map from page number to node; a page missing from it is
    an I/O error. */
module NodeSearch {
  import opened Results
  import opened Bytes
  import opened NodeCodec

  type Key = seq<byte>

  /** The answer of `findKeyInNode`: whether the key was met, and where the scan stopped. */
  datatype Position = Position(found: bool, index: nat)

  /** `findKeyInNode`: scans the items in order and stops at the first key that is not
      smaller than `key`; it reports a hit when that key is equal. */
  function FindKeyInNode(items: seq<Item>, key: Key): (p: Position)
    ensures p.index <= |items|
    ensures forall j :: 0 <= j < p.index ==> Compare(items[j].key, key) < 0
    ensures p.found ==> p.index < |items| && items[p.index].key == key
    ensures !p.found && p.index < |items| ==> Compare(items[p.index].key, key) > 0
  {
    ScanFrom(items, key, 0)
  }

  /** The scan from item `i` on. */
  function ScanFrom(items: seq<Item>, key: Key, i: nat): (p: Position)
    requires i <= |items|
    ensures i <= p.index <= |items|
    ensures forall j :: i <= j < p.index ==> Compare(items[j].key, key) < 0
    ensures p.found ==> p.index < |items| && items[p.index].key == key
    ensures !p.found && p.index < |items| ==> Compare(items[p.index].key, key) > 0
    decreases |items| - i
  {
    if i == |items| then Position(false, |items|)
    else
      var res := Compare(items[i].key, key);
      if res == 0 then Position(true, i)
      else if res == 1 then Position(false, i)
      else ScanFrom(items, key, i + 1)
  }

  /** Keys strictly increasing, as a B-tree node keeps them. */
  ghost predicate SortedKeys(items: seq<Item>) {
    forall a, b :: 0 <= a < b < |items| ==> Compare(items[a].key, items[b].key) < 0
  }

  ghost predicate KeyIn(items: seq<Item>, key: Key) {
    exists j :: 0 <= j < |items| && items[j].key == key
  }

  /** On sorted items the scan is a search: it hits exactly when the key is present, and it
      stops at the number of keys smaller than `key`, which is where `key` belongs. */
  lemma FindKeyInNodeSorted(items: seq<Item>, key: Key)
    requires SortedKeys(items)
    ensures FindKeyInNode(items, key).found <==> KeyIn(items, key)
    ensures forall j :: 0 <= j < |items| ==>
      (j < FindKeyInNode(items, key).index <==> Compare(items[j].key, key) < 0)
  {
    var p := FindKeyInNode(items, key);
    forall j | p.index <= j < |items|
      ensures Compare(items[j].key, key) >= 0
    {
      if j > p.index {
        var a := items[p.index].key;
        var b := items[j].key;
        assert Compare(a, b) < 0;
        if Compare(b, key) < 0 {
          if p.found {
            CompareAntisymmetric(a, b);
          } else {
            CompareTransitive(a, b, key);
          }
        }
      }
    }
  }

  /** Where a descent ended: the index of the key and the node holding it, or -1 and nil. */
  datatype Descent = Descent(index: int, node: Option<Node>)

  /** `getNode`: the page store lookup. */
  function GetNode(pages: map<u64, Node>, p: u64): (r: Result<Node>)
    ensures r.Ok? <==> p in pages
    ensures r.Ok? ==> r.value == pages[p]
  {
    if p in pages then Ok(pages[p]) else Err(IoError)
  }

  /** `findKeyHelper`: a hit in this node ends the descent; a miss in a leaf reports -1 and
      nil; otherwise the descent continues into the child at the insertion point.
      Indexing a missing child panics. `fuel` bounds the depth. */
  function FindKeyHelper(pages: map<u64, Node>, node: Node, key: Key, fuel: nat): (r: Result<Descent>)
    ensures r.Ok? ==> (r.value.index == -1 <==> r.value.node.None?)
    ensures r.Ok? && r.value.node.Some? ==>
      && 0 <= r.value.index < |r.value.node.value.items| && r.value.node.value.items[r.value.index].key == key
      && ItemInSubtree(pages, node, r.value.node.value.items[r.value.index], fuel)
    decreases fuel
  {
    var pos := FindKeyInNode(node.items, key);
    if pos.found then Ok(Descent(pos.index, Some(node)))
    else if IsLeaf(node) then Ok(Descent(-1, None))
    else if pos.index >= |node.childNodes| then Err(Panic)
    else
      var next :- GetNode(pages, node.childNodes[pos.index]);
      if fuel == 0 then Err(DepthExceeded)
      else FindKeyHelper(pages, next, key, fuel - 1)
  }

  /** `findKey`: the descent, with an error reported as -1, nil and the error. */
  function FindKey(pages: map<u64, Node>, node: Node, key: Key, fuel: nat): (r: Result<Descent>)
    ensures r.Ok? ==> (r.value.index == -1 <==> r.value.node.None?)
    ensures r.Ok? && r.value.node.Some? ==>
      && 0 <= r.value.index < |r.value.node.value.items| && r.value.node.value.items[r.value.index].key == key
      && ItemInSubtree(pages, node, r.value.node.value.items[r.value.index], fuel)
  {
    var d :- FindKeyHelper(pages, node, key, fuel);
    Ok(d)
  }

  /** `key` is in the subtree under `node`, looking at most `fuel` levels below it. */
  ghost predicate InSubtree(pages: map<u64, Node>, node: Node, key: Key, fuel: nat)
    decreases fuel
  {
    || KeyIn(node.items, key)
    || (fuel > 0 && exists j :: 0 <= j < |node.childNodes| && node.childNodes[j] in pages
                     && InSubtree(pages, pages[node.childNodes[j]], key, fuel - 1))
  }

  /** The item `it` is stored in the subtree under `node`, at most `fuel` levels below it. */
  ghost predicate ItemInSubtree(pages: map<u64, Node>, node: Node, it: Item, fuel: nat)
    decreases fuel
  {
    || it in node.items
    || (fuel > 0 && exists j :: 0 <= j < |node.childNodes| && node.childNodes[j] in pages
                     && ItemInSubtree(pages, pages[node.childNodes[j]], it, fuel - 1))
  }

  /** A stored item puts its key in the subtree. */
  lemma {:induction false} ItemKeyInSubtree(pages: map<u64, Node>, node: Node, it: Item, fuel: nat)
    requires ItemInSubtree(pages, node, it, fuel)
    ensures InSubtree(pages, node, it.key, fuel)
    decreases fuel
  {
    if it in node.items {
      var i :| 0 <= i < |node.items| && node.items[i] == it;
      assert node.items[i].key == it.key;
    } else {
      var j :| 0 <= j < |node.childNodes| && node.childNodes[j] in pages
               && ItemInSubtree(pages, pages[node.childNodes[j]], it, fuel - 1);
      ItemKeyInSubtree(pages, pages[node.childNodes[j]], it, fuel - 1);
    }
  }

  /** `k` lies strictly between the optional bounds. */
  ghost predicate Within(k: Key, lo: Option<Key>, hi: Option<Key>) {
    && (lo.Some? ==> Compare(lo.value, k) < 0)
    && (hi.Some? ==> Compare(k, hi.value) < 0)
  }

  /** The lower bound of child j: the key before it, or the node's own lower bound. */
  function LowerAt(node: Node, lo: Option<Key>, j: nat): Option<Key>
    requires j <= |node.items|
  {
    if j == 0 then lo else Some(node.items[j - 1].key)
  }

  /** The upper bound of child j: the key after it, or the node's own upper bound. */
  function UpperAt(node: Node, hi: Option<Key>, j: nat): Option<Key>
    requires j <= |node.items|
  {
    if j == |node.items| then hi else Some(node.items[j].key)
  }

  /** A B-tree of depth at most `fuel` under `node` whose keys lie between `lo` and `hi`:
      sorted keys in every node, one more child than items in every internal node, every
      child present in the store and holding only keys between its neighbouring keys. */
  ghost predicate Ordered(pages: map<u64, Node>, node: Node, lo: Option<Key>, hi: Option<Key>, fuel: nat)
    decreases fuel
  {
    && SortedKeys(node.items)
    && (forall j :: 0 <= j < |node.items| ==> Within(node.items[j].key, lo, hi))
    && (!IsLeaf(node) ==>
          && fuel > 0
          && |node.childNodes| == |node.items| + 1
          && forall j :: 0 <= j < |node.childNodes| ==>
               && node.childNodes[j] in pages
               && Ordered(pages, pages[node.childNodes[j]], LowerAt(node, lo, j), UpperAt(node, hi, j), fuel - 1))
  }

  /** Bounds that are at least as wide still hold a key. */
  lemma WithinWiden(k: Key, lo: Option<Key>, hi: Option<Key>, lo': Option<Key>, hi': Option<Key>)
    requires Within(k, lo', hi')
    requires lo.Some? ==> lo'.Some? && (Compare(lo.value, lo'.value) < 0 || lo.value == lo'.value)
    requires hi.Some? ==> hi'.Some? && (Compare(hi'.value, hi.value) < 0 || hi.value == hi'.value)
    ensures Within(k, lo, hi)
  {
    if lo.Some? && lo.value != lo'.value {
      CompareTransitive(lo.value, lo'.value, k);
    }
    if hi.Some? && hi.value != hi'.value {
      CompareTransitive(k, hi'.value, hi.value);
    }
  }

  /** The bounds of child j sit inside the node's bounds. */
  lemma ChildBoundsInside(pages: map<u64, Node>, node: Node, lo: Option<Key>, hi: Option<Key>, fuel: nat, j: nat)
    requires Ordered(pages, node, lo, hi, fuel) && j <= |node.items|
    ensures lo.Some? ==>
      (LowerAt(node, lo, j).Some?
       && (Compare(lo.value, LowerAt(node, lo, j).value) < 0 || lo.value == LowerAt(node, lo, j).value))
    ensures hi.Some? ==>
      (UpperAt(node, hi, j).Some?
       && (Compare(UpperAt(node, hi, j).value, hi.value) < 0 || hi.value == UpperAt(node, hi, j).value))
  {
  }

  /** Every key of an ordered subtree lies between its bounds. */
  lemma {:induction false} SubtreeWithin(pages: map<u64, Node>, node: Node, lo: Option<Key>, hi: Option<Key>, fuel: nat, key: Key)
    requires Ordered(pages, node, lo, hi, fuel) && InSubtree(pages, node, key, fuel)
    ensures Within(key, lo, hi)
    decreases fuel
  {
    if !KeyIn(node.items, key) {
      var j :| 0 <= j < |node.childNodes| && node.childNodes[j] in pages
               && InSubtree(pages, pages[node.childNodes[j]], key, fuel - 1);
      assert !IsLeaf(node);
      SubtreeWithin(pages, pages[node.childNodes[j]], LowerAt(node, lo, j), UpperAt(node, hi, j), fuel - 1, key);
      ChildBoundsInside(pages, node, lo, hi, fuel, j);
      WithinWiden(key, lo, hi, LowerAt(node, lo, j), UpperAt(node, hi, j));
    }
  }

  /** A key missing from an ordered node can only be under the child at its insertion
      point. */
  lemma {:induction false} OnlyChildAtInsertion(pages: map<u64, Node>, node: Node, lo: Option<Key>, hi: Option<Key>, fuel: nat, key: Key)
    requires Ordered(pages, node, lo, hi, fuel) && !IsLeaf(node) && !KeyIn(node.items, key)
    ensures var j := FindKeyInNode(node.items, key).index;
      InSubtree(pages, node, key, fuel) <==> InSubtree(pages, pages[node.childNodes[j]], key, fuel - 1)
  {
    var j := FindKeyInNode(node.items, key).index;
    assert node.childNodes[j] in pages;
    if InSubtree(pages, node, key, fuel) {
      var j' :| 0 <= j' < |node.childNodes| && node.childNodes[j'] in pages
                && InSubtree(pages, pages[node.childNodes[j']], key, fuel - 1);
      SubtreeWithin(pages, pages[node.childNodes[j']], LowerAt(node, lo, j'), UpperAt(node, hi, j'), fuel - 1, key);
      ChildIsInsertionPoint(node, lo, hi, key, j');
    }
  }

  /** The only child whose bounds can hold a key missing from a sorted node is the one at
      the key's insertion point. */
  lemma ChildIsInsertionPoint(node: Node, lo: Option<Key>, hi: Option<Key>, key: Key, j': nat)
    requires SortedKeys(node.items) && !KeyIn(node.items, key) && j' <= |node.items|
    requires Within(key, LowerAt(node, lo, j'), UpperAt(node, hi, j'))
    ensures j' == FindKeyInNode(node.items, key).index
  {
    var items := node.items;
    var j := FindKeyInNode(items, key).index;
    FindKeyInNodeSorted(items, key);
    if j' < j {
      // key < items[j'].key, yet every key before the insertion point is below key
      CompareAntisymmetric(items[j'].key, key);
    }
  }

  /** A key between the bounds of one child of a sorted node is none of the node's keys. */
  lemma WithinChildNotKey(node: Node, lo: Option<Key>, hi: Option<Key>, key: Key, j: nat)
    requires SortedKeys(node.items) && j <= |node.items|
    requires Within(key, LowerAt(node, lo, j), UpperAt(node, hi, j))
    ensures !KeyIn(node.items, key)
  {
    if KeyIn(node.items, key) {
      var i :| 0 <= i < |node.items| && node.items[i].key == key;
      if i < j - 1 {
        CompareTransitive(key, node.items[j - 1].key, key);
      } else if j < i {
        CompareTransitive(key, node.items[j].key, key);
      }
      assert false;
    }
  }

  /** An item stored under an ordered node but not in it sits under the child at its key's
      insertion point, and its key is none of the node's keys. */
  lemma ItemUnderInsertionChild(pages: map<u64, Node>, node: Node, lo: Option<Key>, hi: Option<Key>, fuel: nat, it: Item)
    requires Ordered(pages, node, lo, hi, fuel)
    requires ItemInSubtree(pages, node, it, fuel) && it !in node.items
    ensures !KeyIn(node.items, it.key) && !IsLeaf(node) && fuel > 0
    ensures var j := FindKeyInNode(node.items, it.key).index;
      && j < |node.childNodes| && node.childNodes[j] in pages
      && ItemInSubtree(pages, pages[node.childNodes[j]], it, fuel - 1)
  {
    var j :| 0 <= j < |node.childNodes| && node.childNodes[j] in pages
             && ItemInSubtree(pages, pages[node.childNodes[j]], it, fuel - 1);
    assert !IsLeaf(node) && j <= |node.items|;
    var child := pages[node.childNodes[j]];
    ItemKeyInSubtree(pages, child, it, fuel - 1);
    SubtreeWithin(pages, child, LowerAt(node, lo, j), UpperAt(node, hi, j), fuel - 1, it.key);
    WithinChildNotKey(node, lo, hi, it.key, j);
    ChildIsInsertionPoint(node, lo, hi, it.key, j);
  }

  /** An ordered tree stores at most one item per key. */
  lemma {:induction false} OrderedKeysUnique(pages: map<u64, Node>, node: Node, lo: Option<Key>, hi: Option<Key>, fuel: nat, a: Item, b: Item)
    requires Ordered(pages, node, lo, hi, fuel)
    requires ItemInSubtree(pages, node, a, fuel) && ItemInSubtree(pages, node, b, fuel)
    requires a.key == b.key
    ensures a == b
    decreases fuel
  {
    if a in node.items && b in node.items {
      var i :| 0 <= i < |node.items| && node.items[i] == a;
      var i' :| 0 <= i' < |node.items| && node.items[i'] == b;
      if i != i' {
        // two slots of a sorted node never hold equal keys
        assert false;
      }
    } else if a in node.items {
      ItemUnderInsertionChild(pages, node, lo, hi, fuel, b);
      assert false;
    } else if b in node.items {
      ItemUnderInsertionChild(pages, node, lo, hi, fuel, a);
      assert false;
    } else {
      ItemUnderInsertionChild(pages, node, lo, hi, fuel, a);
      ItemUnderInsertionChild(pages, node, lo, hi, fuel, b);
      var j := FindKeyInNode(node.items, a.key).index;
      OrderedChildAt(pages, node, lo, hi, fuel, j);
      OrderedKeysUnique(pages, pages[node.childNodes[j]], LowerAt(node, lo, j), UpperAt(node, hi, j), fuel - 1, a, b);
    }
  }

  /** The descent is a complete and sound search on an ordered tree: it never fails, and it
      reports -1 exactly when the key is nowhere in the tree. */
  lemma {:induction false} FindKeyHelperCorrect(pages: map<u64, Node>, node: Node, lo: Option<Key>, hi: Option<Key>, fuel: nat, key: Key)
    requires Ordered(pages, node, lo, hi, fuel)
    ensures FindKeyHelper(pages, node, key, fuel).Ok?
    ensures FindKeyHelper(pages, node, key, fuel).value.index == -1 <==> !InSubtree(pages, node, key, fuel)
    decreases fuel
  {
    var pos := FindKeyInNode(node.items, key);
    FindKeyInNodeSorted(node.items, key);
    if !pos.found && !IsLeaf(node) {
      OrderedChildAt(pages, node, lo, hi, fuel, pos.index);
      var child := pages[node.childNodes[pos.index]];
      FindKeyHelperDescends(pages, node, key, fuel);
      FindKeyHelperCorrect(pages, child, LowerAt(node, lo, pos.index), UpperAt(node, hi, pos.index), fuel - 1, key);
      OnlyChildAtInsertion(pages, node, lo, hi, fuel, key);
    }
  }

  /** Child j of an ordered internal node is present and ordered within its bounds. */
  lemma OrderedChildAt(pages: map<u64, Node>, node: Node, lo: Option<Key>, hi: Option<Key>, fuel: nat, j: nat)
    requires Ordered(pages, node, lo, hi, fuel) && !IsLeaf(node) && j <= |node.items|
    ensures fuel > 0 && j < |node.childNodes| && node.childNodes[j] in pages
    ensures Ordered(pages, pages[node.childNodes[j]], LowerAt(node, lo, j), UpperAt(node, hi, j), fuel - 1)
  {
  }

  /** A miss in an internal node whose child at the insertion point is present continues the
      descent there. */
  lemma FindKeyHelperDescends(pages: map<u64, Node>, node: Node, key: Key, fuel: nat)
    requires !FindKeyInNode(node.items, key).found && !IsLeaf(node) && fuel > 0
    requires FindKeyInNode(node.items, key).index < |node.childNodes|
    requires node.childNodes[FindKeyInNode(node.items, key).index] in pages
    ensures FindKeyHelper(pages, node, key, fuel)
         == FindKeyHelper(pages, pages[node.childNodes[FindKeyInNode(node.items, key).index]], key, fuel - 1)
  {
  }
}
