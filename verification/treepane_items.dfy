/** The tree pane's id cache (`_cacheItems`) and what clicking a row does
    with it (`_onRowClick`, `_onRowDblClick`). */
module TreePaneItems {
  import opened Optional
  import opened Tree

  /** The cache maps an item id to an item. */
  type Cache = map<string, TreeItem>

  /** `cacheItem(cache, item)`: record the item under its id, then its
      descendants, each overwriting what an earlier node with the same id left. */
  function CacheItem(cache: Cache, item: TreeItem): Cache
    decreases item
  {
    match item
    case Leaf(_, _, _) => cache[item.id := item]
    case Folder(_, _, _, ks) => CacheAll(cache[item.id := item], ks)
  }

  function CacheAll(cache: Cache, items: seq<TreeItem>): Cache
    decreases items
  {
    if items == [] then cache else CacheAll(CacheItem(cache, items[0]), items[1..])
  }

  /** `_cacheItems()`: with a root, clear the cache and rebuild it from the
      root; without one, leave it as it is. */
  function CacheItems(cache: Cache, root: Option<TreeItem>): (r: Cache)
    ensures root.None? ==> r == cache
    ensures root.Some? ==> r.Keys == set n | n in PreOrder(root.value) :: n.id
    ensures root.Some? ==> forall j :: 0 <= j < |PreOrder(root.value)| && LastWithId(PreOrder(root.value), j) ==>
      r[PreOrder(root.value)[j].id] == PreOrder(root.value)[j]
  {
    match root
    case None => cache
    case Some(n) =>
      CacheItemIsRecord(map[], n);
      RecordKeys(map[], PreOrder(n));
      RecordLastWins(map[], PreOrder(n));
      CacheItem(map[], n)
  }

  // ---------------------------------------------------------------------
  // Reference definition: record a list of nodes, later ones winning

  /** Record the nodes one after another, each under its id. */
  function Record(cache: Cache, nodes: seq<TreeItem>): Cache
    decreases |nodes|
  {
    if nodes == [] then cache else Record(cache[nodes[0].id := nodes[0]], nodes[1..])
  }

  /** No node after position `j` has the id of the node at `j`. */
  predicate LastWithId(nodes: seq<TreeItem>, j: int)
    requires 0 <= j < |nodes|
  {
    forall k :: j < k < |nodes| ==> nodes[k].id != nodes[j].id
  }

  lemma {:induction false} RecordAppend(cache: Cache, a: seq<TreeItem>, b: seq<TreeItem>)
    ensures Record(cache, a + b) == Record(Record(cache, a), b)
    decreases |a|
  {
    if a == [] {
      assert a + b == b;
    } else {
      assert (a + b)[0] == a[0] && (a + b)[1..] == a[1..] + b;
      RecordAppend(cache[a[0].id := a[0]], a[1..], b);
    }
  }

  /** The recursive cache fill records exactly the pre-order list of the tree. */
  lemma {:induction false} CacheItemIsRecord(cache: Cache, n: TreeItem)
    ensures CacheItem(cache, n) == Record(cache, PreOrder(n))
    decreases n
  {
    match n
    case Leaf(_, _, _) =>
    case Folder(_, _, _, ks) =>
      CacheAllIsRecord(cache[n.id := n], ks);
  }

  lemma {:induction false} CacheAllIsRecord(cache: Cache, items: seq<TreeItem>)
    ensures CacheAll(cache, items) == Record(cache, PreOrderAll(items))
    decreases items
  {
    if items != [] {
      CacheItemIsRecord(cache, items[0]);
      CacheAllIsRecord(CacheItem(cache, items[0]), items[1..]);
      RecordAppend(cache, PreOrder(items[0]), PreOrderAll(items[1..]));
    }
  }

  /** The recorded keys are the earlier keys and the ids of the nodes. */
  lemma {:induction false} RecordKeys(cache: Cache, nodes: seq<TreeItem>)
    ensures Record(cache, nodes).Keys == cache.Keys + set n | n in nodes :: n.id
    decreases |nodes|
  {
    if nodes != [] {
      RecordKeys(cache[nodes[0].id := nodes[0]], nodes[1..]);
      assert nodes == [nodes[0]] + nodes[1..];
      assert (set n | n in nodes :: n.id) == {nodes[0].id} + set n | n in nodes[1..] :: n.id;
    }
  }

  /** Keys no node carries keep their earlier entry. */
  lemma {:induction false} RecordKeeps(cache: Cache, nodes: seq<TreeItem>, id: string)
    requires id in cache
    requires forall k :: 0 <= k < |nodes| ==> nodes[k].id != id
    ensures id in Record(cache, nodes) && Record(cache, nodes)[id] == cache[id]
    decreases |nodes|
  {
    if nodes != [] {
      RecordKeeps(cache[nodes[0].id := nodes[0]], nodes[1..], id);
    }
  }

  /** A node with no later node of the same id is what its id maps to. */
  lemma {:induction false} RecordLastWins(cache: Cache, nodes: seq<TreeItem>)
    ensures forall j :: 0 <= j < |nodes| && LastWithId(nodes, j) ==>
      nodes[j].id in Record(cache, nodes) && Record(cache, nodes)[nodes[j].id] == nodes[j]
    decreases |nodes|
  {
    if nodes != [] {
      var next := cache[nodes[0].id := nodes[0]];
      RecordLastWins(next, nodes[1..]);
      forall j | 0 <= j < |nodes| && LastWithId(nodes, j)
        ensures nodes[j].id in Record(cache, nodes) && Record(cache, nodes)[nodes[j].id] == nodes[j]
      {
        if j == 0 {
          RecordKeeps(next, nodes[1..], nodes[0].id);
        } else {
          assert LastWithId(nodes[1..], j - 1);
        }
      }
    }
  }

  // ---------------------------------------------------------------------
  // Row clicks

  /** A callback the pane fires at its owner. */
  datatype Notice = ItemSelect(key: string) | ItemToggle(key: string) | ItemOpen(key: string)

  /** Which of the optional callbacks the owner supplied. */
  datatype Handlers = Handlers(onItemOpen: bool, onItemSelect: bool, onItemToggle: bool)

  /** The callbacks fired, in order, and whether the click ended in the
      "Uncached TreePane row ID" error. */
  datatype Outcome = Outcome(notices: seq<Notice>, uncached: bool)

  /** `_onRowClick(key)`: select first (unless the row is already selected),
      then look the key up, failing for an unknown one, then toggle a folder. */
  function RowClick(cache: Cache, selected: Option<string>, h: Handlers, key: string): (r: Outcome)
    ensures r.uncached <==> key !in cache
    ensures ItemSelect(key) in r.notices <==> h.onItemSelect && selected != Some(key)
    ensures ItemToggle(key) in r.notices <==> key in cache && cache[key].Folder? && h.onItemToggle
    ensures forall i :: 0 <= i < |r.notices| ==> r.notices[i] in {ItemSelect(key), ItemToggle(key)}
    ensures ItemSelect(key) in r.notices ==> r.notices[0] == ItemSelect(key)
    ensures |r.notices| <= 2
  {
    var select := if h.onItemSelect && selected != Some(key) then [ItemSelect(key)] else [];
    if key !in cache then Outcome(select, true)
    else if cache[key].Folder? && h.onItemToggle then Outcome(select + [ItemToggle(key)], false)
    else Outcome(select, false)
  }

  /** `_onRowDblClick(key)`: always asks to open, folder or file. */
  function RowDblClick(h: Handlers, key: string): (r: seq<Notice>)
    ensures r != [] <==> h.onItemOpen
    ensures forall i :: 0 <= i < |r| ==> r[i] == ItemOpen(key)
    ensures |r| <= 1
  {
    if h.onItemOpen then [ItemOpen(key)] else []
  }
}
