/** A collection (collection.go): a named B-tree whose root page number it holds. `Find`
    descends from the root; `Put` bootstraps an empty tree, overwrites or inserts in the
    node the descent ends at, then rebalances bottom-up along the path and grows a new root
    when the old one overflows.

    The operations `Put` relies on that collection.go does not define — the four-result
    `findKey(key, exact)`, `addItem`, `isOverPopulated`, `split`, `newNode`, `writeNode` and
    the page reads of `getNode` — are fields of an `Env` over an abstract store `S`. */
module Collections {
  import opened Results
  import opened Bytes
  import opened NodeCodec
  import opened NodeSearch

  /** `Find`: the item stored under `key`, `None` when the descent reports -1. */
  function Find(pages: map<u64, Node>, root: u64, key: Key, fuel: nat): (r: Result<Option<Item>>)
    ensures root !in pages ==> r == Err(IoError)
    ensures r.Ok? && r.value.Some? ==> r.value.value.key == key
    ensures r.Ok? && r.value.Some? ==> root in pages && ItemInSubtree(pages, pages[root], r.value.value, fuel)
  {
    var n :- GetNode(pages, root);
    var d :- FindKey(pages, n, key, fuel);
    if d.index == -1 then Ok(None) else Ok(Some(d.node.value.items[d.index]))
  }

  /** On an ordered tree `Find` never fails, finds nothing exactly when the key is nowhere
      in the tree, and otherwise returns the item the tree stores under that key. */
  lemma FindCorrect(pages: map<u64, Node>, root: u64, key: Key, fuel: nat)
    requires root in pages && Ordered(pages, pages[root], None, None, fuel)
    ensures Find(pages, root, key, fuel).Ok?
    ensures Find(pages, root, key, fuel).value.None? <==> !InSubtree(pages, pages[root], key, fuel)
    ensures forall it :: ItemInSubtree(pages, pages[root], it, fuel) && it.key == key ==>
      Find(pages, root, key, fuel) == Ok(Some(it))
  {
    FindKeyHelperCorrect(pages, pages[root], None, None, fuel, key);
    forall it | ItemInSubtree(pages, pages[root], it, fuel) && it.key == key
      ensures Find(pages, root, key, fuel) == Ok(Some(it))
    {
      ItemKeyInSubtree(pages, pages[root], it, fuel);
      var found := Find(pages, root, key, fuel).value.value;
      OrderedKeysUnique(pages, pages[root], None, None, fuel, found, it);
    }
  }

  /** The length of the path `getNodes` returns for a list of child indexes. */
  function PathLength(indexes: seq<int>): nat {
    if |indexes| <= 1 then 1 else |indexes|
  }

  /** `ns` starts at the root page and each later node is the child of the one before at
      the next index; `indexes[0]` plays no part. */
  ghost predicate PathPrefix(pages: map<u64, Node>, root: u64, indexes: seq<int>, ns: seq<Node>) {
    && 1 <= |ns| <= PathLength(indexes)
    && root in pages && ns[0] == pages[root]
    && forall i :: 1 <= i < |ns| ==>
         && 0 <= indexes[i] < |ns[i - 1].childNodes|
         && ns[i - 1].childNodes[indexes[i]] in pages
         && ns[i] == pages[ns[i - 1].childNodes[indexes[i]]]
  }

  /** `ns` is the whole path the indexes describe. */
  ghost predicate IsPath(pages: map<u64, Node>, root: u64, indexes: seq<int>, ns: seq<Node>) {
    PathPrefix(pages, root, indexes, ns) && |ns| == PathLength(indexes)
  }

  /** `getNodes`: the nodes along the path, root first. A missing page is an I/O error and
      an index outside a node's children panics. It succeeds exactly on the path the indexes
      describe. */
  function GetNodes(pages: map<u64, Node>, root: u64, indexes: seq<int>): (r: Result<seq<Node>>)
    ensures root !in pages ==> r == Err(IoError)
    ensures r.Ok? ==> IsPath(pages, root, indexes, r.value)
    ensures forall ns :: IsPath(pages, root, indexes, ns) ==> r == Ok(ns)
    ensures r.Err? ==> r.error == Panic || r.error == IoError
  {
    var n :- GetNode(pages, root);
    WalkPath(pages, root, indexes, [n])
  }

  /** The loop of `getNodes` once the nodes `ns` are known. */
  function WalkPath(pages: map<u64, Node>, root: u64, indexes: seq<int>, ns: seq<Node>): (r: Result<seq<Node>>)
    requires PathPrefix(pages, root, indexes, ns)
    ensures r.Ok? ==> IsPath(pages, root, indexes, r.value)
    ensures forall full :: IsPath(pages, root, indexes, full) && full[..|ns|] == ns ==> r == Ok(full)
    ensures |ns| < |indexes| && !(0 <= indexes[|ns|] < |ns[|ns| - 1].childNodes|) ==> r == Err(Panic)
    ensures (|ns| < |indexes| && 0 <= indexes[|ns|] < |ns[|ns| - 1].childNodes|
             && ns[|ns| - 1].childNodes[indexes[|ns|]] !in pages) ==> r == Err(IoError)
    ensures r.Err? ==> r.error == Panic || r.error == IoError
    decreases |indexes| - |ns|
  {
    var i := |ns|;
    if i >= |indexes| then
      assert forall full :: IsPath(pages, root, indexes, full) ==> full[..|ns|] == full;
      Ok(ns)
    else
      var parent := ns[i - 1];
      if !(0 <= indexes[i] < |parent.childNodes|) then Err(Panic)
      else
        var child :- GetNode(pages, parent.childNodes[indexes[i]]);
        PathExtends(pages, root, indexes, ns);
        WalkPath(pages, root, indexes, ns + [child])
  }

  /** A path prefix extends by the child at the next index, and any whole path that starts
      with the prefix starts with the extension too. */
  lemma PathExtends(pages: map<u64, Node>, root: u64, indexes: seq<int>, ns: seq<Node>)
    requires PathPrefix(pages, root, indexes, ns) && |ns| < |indexes|
    requires 0 <= indexes[|ns|] < |ns[|ns| - 1].childNodes|
    requires ns[|ns| - 1].childNodes[indexes[|ns|]] in pages
    ensures var ns' := ns + [pages[ns[|ns| - 1].childNodes[indexes[|ns|]]]];
      && PathPrefix(pages, root, indexes, ns')
      && forall full :: IsPath(pages, root, indexes, full) && full[..|ns|] == ns ==> full[..|ns| + 1] == ns'
  {
    var i := |ns|;
    var ns' := ns + [pages[ns[i - 1].childNodes[indexes[i]]]];
    forall k | 1 <= k < |ns'|
      ensures 0 <= indexes[k] < |ns'[k - 1].childNodes|
      ensures ns'[k - 1].childNodes[indexes[k]] in pages
      ensures ns'[k] == pages[ns'[k - 1].childNodes[indexes[k]]]
    {
      assert ns'[k - 1] == ns[k - 1];
    }
    forall full | IsPath(pages, root, indexes, full) && full[..i] == ns
      ensures full[..i + 1] == ns'
    {
      assert full[i - 1] == ns[i - 1];
    }
  }

  /** The walk from a prefix `ns` of a longer path prefix `ps` fails exactly as the walk
      fails where `ps` breaks: on an index outside the last node's children it panics, on a
      missing child page it is an I/O error. */
  lemma {:induction false} WalkPathBreaks(pages: map<u64, Node>, root: u64, indexes: seq<int>, ns: seq<Node>, ps: seq<Node>)
    requires PathPrefix(pages, root, indexes, ns) && PathPrefix(pages, root, indexes, ps)
    requires |ns| <= |ps| < |indexes| && ps[..|ns|] == ns
    ensures !(0 <= indexes[|ps|] < |ps[|ps| - 1].childNodes|) ==> WalkPath(pages, root, indexes, ns) == Err(Panic)
    ensures (0 <= indexes[|ps|] < |ps[|ps| - 1].childNodes| && ps[|ps| - 1].childNodes[indexes[|ps|]] !in pages) ==>
      WalkPath(pages, root, indexes, ns) == Err(IoError)
    decreases |ps| - |ns|
  {
    if |ns| == |ps| {
      assert ps[..|ns|] == ps;
    } else {
      var ns' := ns + [ps[|ns|]];
      assert ps[..|ns'|] == ns' && ps[|ns| - 1] == ns[|ns| - 1];
      WalkPathStep(pages, root, indexes, ns, ps[|ns|]);
      WalkPathBreaks(pages, root, indexes, ns', ps);
    }
  }

  /** One step of the walk: from a prefix the walk goes on from the prefix and the child at
      the next index. */
  lemma WalkPathStep(pages: map<u64, Node>, root: u64, indexes: seq<int>, ns: seq<Node>, child: Node)
    requires PathPrefix(pages, root, indexes, ns) && |ns| < |indexes|
    requires PathPrefix(pages, root, indexes, ns + [child])
    ensures WalkPath(pages, root, indexes, ns) == WalkPath(pages, root, indexes, ns + [child])
  {
    var i := |ns|;
    assert (ns + [child])[i] == child && (ns + [child])[i - 1] == ns[i - 1];
  }

  /** `getNodes` fails exactly where the path breaks: past the known prefix `ns`, an index
      outside the last node's children panics and a missing child page is an I/O error. */
  lemma GetNodesBreaks(pages: map<u64, Node>, root: u64, indexes: seq<int>, ns: seq<Node>)
    requires PathPrefix(pages, root, indexes, ns) && |ns| < |indexes|
    ensures !(0 <= indexes[|ns|] < |ns[|ns| - 1].childNodes|) ==> GetNodes(pages, root, indexes) == Err(Panic)
    ensures 0 <= indexes[|ns|] < |ns[|ns| - 1].childNodes| && ns[|ns| - 1].childNodes[indexes[|ns|]] !in pages ==>
      GetNodes(pages, root, indexes) == Err(IoError)
  {
    assert ns[..1] == [pages[root]];
    WalkPathBreaks(pages, root, indexes, [pages[root]], ns);
  }

  /** The descent of `findKey(key, false)`: where to insert, the node to insert into, and the
      child indexes taken from the root down. */
  datatype Insertion = Insertion(index: int, node: Node, ancestors: seq<int>)

  /** A node together with the store after the call that produced it. */
  datatype Stored<S> = Stored(store: S, node: Node)

  /** The store after `Put` and the collection's root page. */
  datatype Outcome<S> = Outcome(store: S, root: u64)

  /** The operations `Put` uses and collection.go does not define. `split(parent, child, i)`
      splits the child at position i of the parent and returns the parent as updated. */
  datatype Env<!S> = Env(
    pages: S -> map<u64, Node>,
    findKey: (S, Node, Key) -> Result<Insertion>,
    addItem: (Node, Item, int) -> Node,
    isOverPopulated: Node -> bool,
    split: (S, Node, Node, int) -> Stored<S>,
    newNode: (S, seq<Item>, seq<u64>) -> Stored<S>,
    writeNode: (S, Node) -> Result<Stored<S>>)

  /** `Put`. */
  function Put<S>(env: Env<S>, s: S, root: u64, key: Key, value: seq<byte>): (r: Result<Outcome<S>>)
    ensures root == 0 ==> r == Ok(Bootstrap(env, s, Item(key, value)))
    ensures root != 0 && root !in env.pages(s) ==> r == Err(IoError)
  {
    var item := Item(key, value);
    if root == 0 then Ok(Bootstrap(env, s, item))
    else Insert(env, s, root, item)
  }

  /** When the descent of a non-empty collection ends past the last item of a non-empty
      node, `Put` panics at the overwrite check before anything is written. */
  lemma PutPanicsPastEnd<S>(env: Env<S>, s: S, root: u64, key: Key, value: seq<byte>, ins: Insertion)
    requires root != 0 && root in env.pages(s)
    requires env.findKey(s, env.pages(s)[root], key) == Ok(ins)
    requires |ins.node.items| > 0 && ins.index == |ins.node.items|
    ensures Put(env, s, root, key, value) == Err(Panic)
  {
  }

  /** `Put` into the empty collection, then `Find` from the new root, returns the item put,
      provided the written leaf is readable at its page afterwards. */
  lemma PutThenFind<S>(env: Env<S>, s: S, key: Key, value: seq<byte>, fuel: nat)
    requires var created := env.newNode(s, [Item(key, value)], []);
      && env.writeNode(created.store, created.node).Ok?
      && var w := env.writeNode(created.store, created.node).value;
         && w.node.pageNum in env.pages(w.store)
         && env.pages(w.store)[w.node.pageNum].items == [Item(key, value)]
    ensures Put(env, s, 0, key, value).Ok?
    ensures var o := Put(env, s, 0, key, value).value;
      Find(env.pages(o.store), o.root, key, fuel) == Ok(Some(Item(key, value)))
  {
  }

  /** The empty collection: a one-item leaf is created and written, and becomes the root. A
      failed write is swallowed and leaves the root at 0. */
  function Bootstrap<S>(env: Env<S>, s: S, item: Item): (r: Outcome<S>)
    ensures var created := env.newNode(s, [item], []);
      && (env.writeNode(created.store, created.node).Ok? ==>
            r.root == env.writeNode(created.store, created.node).value.node.pageNum)
      && (env.writeNode(created.store, created.node).Err? ==> r == Outcome(created.store, 0))
  {
    var created := env.newNode(s, [item], []);
    match env.writeNode(created.store, created.node)
    case Err(_) => Outcome(created.store, 0)
    case Ok(w) => Outcome(w.store, w.node.pageNum)
  }

  /** A non-empty collection. */
  function Insert<S>(env: Env<S>, s: S, root: u64, item: Item): (r: Result<Outcome<S>>)
    ensures root !in env.pages(s) ==> r == Err(IoError)
  {
    var rootNode :- GetNode(env.pages(s), root);
    var ins :- env.findKey(s, rootNode, item.key);
    var target :- OverwriteOrInsert(env, ins.node, ins.index, item);
    var w :- env.writeNode(s, target);
    var ancestors :- GetNodes(env.pages(w.store), root, ins.ancestors);
    var rb := Rebalance(env, w.store, ancestors, ins.ancestors, |ancestors| - 2);
    PromoteRoot(env, rb.store, rb.nodes[0], root)
  }

  /** The overwrite-or-insert decision as written: a node with items is indexed at the
      insertion point before the keys are compared, so an insertion point past the last item
      panics; an equal key there is replaced in place, anything else goes to `addItem`. */
  function OverwriteOrInsert<S>(env: Env<S>, node: Node, index: int, item: Item): (r: Result<Node>)
    ensures r.Err? <==> |node.items| > 0 && !(0 <= index < |node.items|)
    ensures r.Ok? && 0 <= index < |node.items| && node.items[index].key == item.key ==>
      && r.value.pageNum == node.pageNum && r.value.childNodes == node.childNodes
      && |r.value.items| == |node.items| && r.value.items[index] == item
      && forall j :: 0 <= j < |node.items| && j != index ==> r.value.items[j] == node.items[j]
    ensures r.Ok? && !(0 <= index < |node.items| && node.items[index].key == item.key) ==>
      r.value == env.addItem(node, item, index)
  {
    if |node.items| > 0 then
      if !(0 <= index < |node.items|) then Err(Panic)
      else if Compare(node.items[index].key, item.key) == 0 then
        Ok(node.(items := node.items[index := item]))
      else Ok(env.addItem(node, item, index))
    else Ok(env.addItem(node, item, index))
  }

  /** A key greater than every key of a non-empty node has its insertion point at the end
      (node.go's scan runs off the items), and there the overwrite check panics. */
  lemma OverwritePanicsPastEnd<S>(env: Env<S>, node: Node, item: Item)
    requires |node.items| > 0
    requires forall j :: 0 <= j < |node.items| ==> Compare(node.items[j].key, item.key) < 0
    ensures FindKeyInNode(node.items, item.key).index == |node.items|
    ensures OverwriteOrInsert(env, node, FindKeyInNode(node.items, item.key).index, item) == Err(Panic)
  {
    var p := FindKeyInNode(node.items, item.key);
  }

  /** The overwrite-or-insert decision as evidently intended: the key is compared only when
      the insertion point is inside the items. */
  function OverwriteOrInsertChecked<S>(env: Env<S>, node: Node, index: int, item: Item): (r: Node)
    ensures 0 <= index < |node.items| && node.items[index].key == item.key ==>
      && r.pageNum == node.pageNum && r.childNodes == node.childNodes
      && |r.items| == |node.items| && r.items[index] == item
      && forall j :: 0 <= j < |node.items| && j != index ==> r.items[j] == node.items[j]
    ensures !(0 <= index < |node.items| && node.items[index].key == item.key) ==>
      r == env.addItem(node, item, index)
  {
    if 0 <= index < |node.items| && Compare(node.items[index].key, item.key) == 0 then
      node.(items := node.items[index := item])
    else env.addItem(node, item, index)
  }

  /** The checked decision agrees with the one as written wherever that one does not panic,
      and at the insertion point past the end it inserts. */
  lemma CheckedAgrees<S>(env: Env<S>, node: Node, index: int, item: Item)
    ensures OverwriteOrInsert(env, node, index, item).Ok? ==>
      OverwriteOrInsert(env, node, index, item).value == OverwriteOrInsertChecked(env, node, index, item)
    ensures index == |node.items| ==> OverwriteOrInsertChecked(env, node, index, item) == env.addItem(node, item, index)
  {
  }

  /** The path after the rebalance loop, with the store and the positions of the children
      that were split, in the order they were split. */
  datatype Rebalanced<S> = Rebalanced(store: S, nodes: seq<Node>, splits: seq<nat>)

  /** The rebalance loop from the pair (i, i+1) up to the pair (0, 1): an overpopulated child
      is split into its parent, and the parent as updated is what the next pair looks at. */
  function Rebalance<S>(env: Env<S>, s: S, anc: seq<Node>, indexes: seq<int>, i: int): (r: Rebalanced<S>)
    requires -1 <= i <= |anc| - 2
    requires i >= 0 ==> |anc| <= |indexes|
    ensures |r.nodes| == |anc|
    decreases i + 1
  {
    if i < 0 then Rebalanced(s, anc, [])
    else if env.isOverPopulated(anc[i + 1]) then
      var sp := env.split(s, anc[i], anc[i + 1], indexes[i + 1]);
      var rest := Rebalance(env, sp.store, anc[i := sp.node], indexes, i - 1);
      Rebalanced(rest.store, rest.nodes, [i + 1] + rest.splits)
    else Rebalance(env, s, anc, indexes, i - 1)
  }

  /** What the rebalance loop from the pair (i, i+1), started on store `s`, did to the
      path `anc` when it returned `r`: it visited the children from the deepest up, never
      the root as a child, split exactly the children that were overpopulated when visited,
      and changed no node but the parent of a split child. That parent is what `split`
      returns for the original parent and the child as the loop left it, at the child's
      index, on some store along the way. Without a split the store is unchanged. */
  ghost predicate RebalancedPath<S(!new)>(env: Env<S>, s: S, anc: seq<Node>, indexes: seq<int>, i: int, r: Rebalanced<S>) {
    && |r.nodes| == |anc|
    && (forall x :: x in r.splits ==> 1 <= x <= i + 1)
    && (forall a, b :: 0 <= a < b < |r.splits| ==> r.splits[a] > r.splits[b])
    && (forall p :: 1 <= p <= i + 1 && p < |anc| ==> (p in r.splits <==> env.isOverPopulated(r.nodes[p])))
    && (forall p :: 0 <= p < |anc| && p + 1 !in r.splits ==> r.nodes[p] == anc[p])
    && SplitParents(env, anc, indexes, r)
    && (r.splits == [] ==> r.store == s)
  }

  /** Position x-1 of `nodes` is the parent `split` returns, on store `st`, for position
      x-1 of `anc` and the child at position x of `nodes`, at child index `indexes[x]`. */
  ghost predicate SplitInto<S>(env: Env<S>, st: S, anc: seq<Node>, indexes: seq<int>, nodes: seq<Node>, x: int) {
    1 <= x < |anc| && x < |indexes| && |nodes| == |anc| &&
    nodes[x - 1] == env.split(st, anc[x - 1], nodes[x], indexes[x]).node
  }

  /** The parent of every split child is what `split` returned for the original parent and
      the child as the loop left it, on some store. */
  ghost predicate SplitParents<S(!new)>(env: Env<S>, anc: seq<Node>, indexes: seq<int>, r: Rebalanced<S>) {
    forall x :: x in r.splits ==>
      && 1 <= x < |anc| && x < |indexes| && |r.nodes| == |anc|
      && exists st: S :: SplitInto(env, st, anc, indexes, r.nodes, x)
  }

  /** The rebalance loop does what `RebalancedPath` describes. */
  lemma {:induction false} RebalanceSpec<S(!new)>(env: Env<S>, s: S, anc: seq<Node>, indexes: seq<int>, i: int)
    requires -1 <= i <= |anc| - 2
    requires i >= 0 ==> |anc| <= |indexes|
    ensures RebalancedPath(env, s, anc, indexes, i, Rebalance(env, s, anc, indexes, i))
    decreases i + 1
  {
    if i >= 0 {
      if env.isOverPopulated(anc[i + 1]) {
        var sp := env.split(s, anc[i], anc[i + 1], indexes[i + 1]);
        RebalanceSpec(env, sp.store, anc[i := sp.node], indexes, i - 1);
        var rest := Rebalance(env, sp.store, anc[i := sp.node], indexes, i - 1);
        SplitVisit(env, s, anc, indexes, i, rest);
      } else {
        RebalanceSpec(env, s, anc, indexes, i - 1);
      }
    }
  }

  /** One visit that splits child i+1: the parent i is replaced by what `split` returns
      for it and the child, and the rest of the loop runs on the updated path. */
  lemma SplitVisit<S(!new)>(env: Env<S>, s: S, anc: seq<Node>, indexes: seq<int>, i: int, rest: Rebalanced<S>)
    requires 0 <= i <= |anc| - 2 && |anc| <= |indexes| && env.isOverPopulated(anc[i + 1])
    requires var sp := env.split(s, anc[i], anc[i + 1], indexes[i + 1]);
      RebalancedPath(env, sp.store, anc[i := sp.node], indexes, i - 1, rest)
    ensures RebalancedPath(env, s, anc, indexes, i, Rebalanced(rest.store, rest.nodes, [i + 1] + rest.splits))
  {
    var sp := env.split(s, anc[i], anc[i + 1], indexes[i + 1]);
    var splits := [i + 1] + rest.splits;
    var anc' := anc[i := sp.node];
    var r := Rebalanced(rest.store, rest.nodes, splits);
    assert forall x :: x in splits <==> x == i + 1 || x in rest.splits;
    SplitsDescend(i, rest.splits, splits);
    assert i + 2 !in rest.splits;
    assert rest.nodes[i + 1] == anc'[i + 1] == anc[i + 1];
    assert i + 1 !in rest.splits && rest.nodes[i] == anc'[i] == sp.node;
    forall p | 0 <= p < |anc| && p + 1 !in splits
      ensures r.nodes[p] == anc[p]
    {
      assert rest.nodes[p] == anc'[p];
    }
    SplitParentsVisit(env, s, anc, indexes, i, rest);
  }

  /** Putting child i+1 in front of splits all at most i keeps the list descending. */
  lemma SplitsDescend(i: int, splits: seq<nat>, all: seq<nat>)
    requires forall x :: x in splits ==> x <= i
    requires forall a, b :: 0 <= a < b < |splits| ==> splits[a] > splits[b]
    requires all == [i + 1] + splits
    ensures forall a, b :: 0 <= a < b < |all| ==> all[a] > all[b]
  {
    forall a, b | 0 <= a < b < |all|
      ensures all[a] > all[b]
    {
      assert all[b] == splits[b - 1] && splits[b - 1] in splits;
      if a > 0 {
        assert all[a] == splits[a - 1];
      }
    }
  }

  /** The `SplitParents` part of one split visit. */
  lemma SplitParentsVisit<S(!new)>(env: Env<S>, s: S, anc: seq<Node>, indexes: seq<int>, i: int, rest: Rebalanced<S>)
    requires 0 <= i <= |anc| - 2 && |anc| <= |indexes| && |rest.nodes| == |anc|
    requires forall x :: x in rest.splits ==> 1 <= x <= i
    requires var sp := env.split(s, anc[i], anc[i + 1], indexes[i + 1]);
      && SplitParents(env, anc[i := sp.node], indexes, rest)
      && rest.nodes[i] == sp.node && rest.nodes[i + 1] == anc[i + 1]
    ensures SplitParents(env, anc, indexes, Rebalanced(rest.store, rest.nodes, [i + 1] + rest.splits))
  {
    var sp := env.split(s, anc[i], anc[i + 1], indexes[i + 1]);
    var r := Rebalanced(rest.store, rest.nodes, [i + 1] + rest.splits);
    forall x | x in r.splits
      ensures 1 <= x < |anc| && x < |indexes|
      ensures exists st: S :: SplitInto(env, st, anc, indexes, r.nodes, x)
    {
      if x == i + 1 {
        assert SplitInto(env, s, anc, indexes, r.nodes, x);
      } else {
        assert x in rest.splits;
        var st :| SplitInto(env, st, anc[i := sp.node], indexes, rest.nodes, x);
        assert SplitInto(env, st, anc, indexes, r.nodes, x);
      }
    }
  }

  /** Growing a new root: an overpopulated root becomes the only child of a new item-less
      node, is split into it, and the written new node becomes the root. The collection's
      root changes in no other case. */
  function PromoteRoot<S>(env: Env<S>, s: S, rootNode: Node, root: u64): (r: Result<Outcome<S>>)
    ensures !env.isOverPopulated(rootNode) ==> r == Ok(Outcome(s, root))
    ensures r.Ok? && r.value.root != root ==> env.isOverPopulated(rootNode)
    ensures env.isOverPopulated(rootNode) ==>
      var created := env.newNode(s, [], [rootNode.pageNum]);
      var sp := env.split(created.store, created.node, rootNode, 0);
      && (r.Ok? <==> env.writeNode(sp.store, sp.node).Ok?)
      && (r.Ok? ==> r.value == Outcome(env.writeNode(sp.store, sp.node).value.store,
                                       env.writeNode(sp.store, sp.node).value.node.pageNum))
  {
    if env.isOverPopulated(rootNode) then
      var created := env.newNode(s, [], [rootNode.pageNum]);
      var sp := env.split(created.store, created.node, rootNode, 0);
      var w :- env.writeNode(sp.store, sp.node);
      Ok(Outcome(w.store, w.node.pageNum))
    else Ok(Outcome(s, root))
  }
}
