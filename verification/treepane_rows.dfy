/** The tree pane's virtualised rows (`_renderChildren` and `_renderChild`):
    a pre-order walk of the expanded tree yields one slot per visible row,
    and only the slots inside a window derived from the scroll position hold
    a row; the others are `null` placeholders. */
module TreePaneRows {
  import opened Optional
  import opened Tree
  import Tabs

  /** One visible row of the walk: the item and its depth, 1 for the top level. */
  datatype Visit = Visit(item: TreeItem, level: nat)

  /** The walk goes below `item` only when it has a non-empty `children`
      list and its id is in the expanded list. */
  predicate Descends(item: TreeItem, expanded: seq<string>) {
    item.Folder? && |item.children| > 0 && item.id in expanded
  }

  /** Reference definition of the visible rows: each item, then (when the
      walk descends) the visible rows of its children one level deeper. */
  function FlattenItem(item: TreeItem, level: nat, expanded: seq<string>): seq<Visit> {
    [Visit(item, level)] + (if Descends(item, expanded) then Flatten(item.children, level + 1, expanded) else [])
  }

  function Flatten(items: seq<TreeItem>, level: nat, expanded: seq<string>): seq<Visit> {
    if items == [] then [] else FlattenItem(items[0], level, expanded) + Flatten(items[1..], level, expanded)
  }

  /** The properties `_renderChild` gives a row. */
  datatype Row = Row(key: string, name: string, title: string, level: nat, hasChildren: bool, expanded: bool, selected: bool)

  /** The inputs of the walk that do not change while it runs. */
  datatype View = View(expanded: seq<string>, selected: Option<string>, start: real, end: real)

  /** `_renderChild(item, level)`. */
  function MakeRow(item: TreeItem, level: nat, v: View): (r: Row)
    ensures r.key == item.id && r.name == item.name && r.title == item.title
    ensures r.level == level
    ensures r.hasChildren <==> item.Folder?
    ensures r.expanded <==> item.id in v.expanded
    ensures r.selected <==> v.selected == Some(item.id)
  {
    Row(item.id, item.name, item.title, level, item.Folder?, item.id in v.expanded, v.selected == Some(item.id))
  }

  /** The 1-based row number `k` is inside the materialised window. */
  predicate InWindow(k: int, v: View) {
    v.start <= k as real <= v.end
  }

  /** `start = position ? position - 1 : 0` and `end = start + visibleRowCount + 2`. */
  function ViewAt(expanded: seq<string>, selected: Option<string>, position: real, visibleRowCount: real): (v: View)
    ensures v.expanded == expanded && v.selected == selected
    ensures v.end - v.start == visibleRowCount + 2.0
    ensures position != 0.0 ==> v.start == position - 1.0
    ensures position >= 1.0 ==> v.start >= 0.0
    ensures position == 0.0 ==> v.start == 0.0
  {
    var start := if position != 0.0 then position - 1.0 else 0.0;
    View(expanded, selected, start, start + visibleRowCount + 2.0)
  }

  /** The slot for the `k`-th visible row. */
  function SlotFor(x: Visit, k: int, v: View): Option<Row> {
    if InWindow(k, v) then Some(MakeRow(x.item, x.level, v)) else None
  }

  /** The nested `addChildren` of `_renderChildren`, with the running
      `rowCount` threaded through: `count` rows precede these items. */
  function RenderItem(item: TreeItem, level: nat, count: nat, v: View): (slots: seq<Option<Row>>)
    ensures |slots| == |FlattenItem(item, level, v.expanded)|
    ensures forall i :: 0 <= i < |slots| ==> slots[i] == SlotFor(FlattenItem(item, level, v.expanded)[i], count + 1 + i, v)
  {
    var here := [SlotFor(Visit(item, level), count + 1, v)];
    var below := if Descends(item, v.expanded) then RenderItems(item.children, level + 1, count + 1, v) else [];
    here + below
  }

  function RenderItems(items: seq<TreeItem>, level: nat, count: nat, v: View): (slots: seq<Option<Row>>)
    ensures |slots| == |Flatten(items, level, v.expanded)|
    ensures forall i :: 0 <= i < |slots| ==> slots[i] == SlotFor(Flatten(items, level, v.expanded)[i], count + 1 + i, v)
  {
    if items == [] then []
    else
      var head := RenderItem(items[0], level, count, v);
      var rest := RenderItems(items[1..], level, count + |head|, v);
      head + rest
  }

  /** The list the walk starts from: `[root]` when the root is shown,
      otherwise `root.children || []`; nothing without a root. */
  function TopItems(root: Option<TreeItem>, showRoot: bool): seq<TreeItem> {
    match root
    case None => []
    case Some(r) => if showRoot then [r] else Kids(r)
  }

  /** `_renderChildren()`: one slot per visible row; the slot of the
      1-based row `k` holds that row's properties exactly when
      `start <= k <= end`, and is empty otherwise. */
  function RenderChildren(root: Option<TreeItem>, showRoot: bool, v: View): (slots: seq<Option<Row>>)
    ensures |slots| == |Flatten(TopItems(root, showRoot), 1, v.expanded)|
    ensures forall k :: 0 <= k < |slots| ==> (slots[k].Some? <==> InWindow(k + 1, v))
    ensures forall k :: 0 <= k < |slots| && slots[k].Some? ==>
      var x := Flatten(TopItems(root, showRoot), 1, v.expanded)[k];
      slots[k].value == MakeRow(x.item, x.level, v)
  {
    if root.None? then [] else RenderItems(TopItems(root, showRoot), 1, 0, v)
  }

  // ---------------------------------------------------------------------
  // Properties of the walk

  /** Concatenated sibling lists are walked one after the other. */
  lemma {:induction false} FlattenAppend(a: seq<TreeItem>, b: seq<TreeItem>, level: nat, e: seq<string>)
    ensures Flatten(a + b, level, e) == Flatten(a, level, e) + Flatten(b, level, e)
    decreases |a|
  {
    if a == [] {
      assert a + b == b;
    } else {
      assert (a + b)[0] == a[0] && (a + b)[1..] == a[1..] + b;
      FlattenAppend(a[1..], b, level, e);
      var h := FlattenItem(a[0], level, e);
      assert Flatten(a + b, level, e) == h + Flatten(a[1..] + b, level, e);
      assert h + (Flatten(a[1..], level, e) + Flatten(b, level, e)) == (h + Flatten(a[1..], level, e)) + Flatten(b, level, e);
    }
  }

  /** Every row is at least as deep as the level the walk starts at. */
  lemma {:induction false} FlattenLevels(items: seq<TreeItem>, level: nat, e: seq<string>)
    ensures forall x :: x in Flatten(items, level, e) ==> x.level >= level
    decreases items
  {
    if items != [] {
      FlattenItemLevels(items[0], level, e);
      FlattenLevels(items[1..], level, e);
    }
  }

  lemma {:induction false} FlattenItemLevels(item: TreeItem, level: nat, e: seq<string>)
    ensures forall x :: x in FlattenItem(item, level, e) ==> x.level >= level
    decreases item
  {
    if Descends(item, e) {
      FlattenLevels(item.children, level + 1, e);
    }
  }

  /** The items of the rows at a given level, in order. */
  function AtLevel(xs: seq<Visit>, level: nat): seq<TreeItem> {
    if xs == [] then []
    else (if xs[0].level == level then [xs[0].item] else []) + AtLevel(xs[1..], level)
  }

  lemma {:induction false} AtLevelAppend(a: seq<Visit>, b: seq<Visit>, level: nat)
    ensures AtLevel(a + b, level) == AtLevel(a, level) + AtLevel(b, level)
    decreases |a|
  {
    if a == [] {
      assert a + b == b;
    } else {
      assert (a + b)[0] == a[0] && (a + b)[1..] == a[1..] + b;
      AtLevelAppend(a[1..], b, level);
      var h: seq<TreeItem> := if a[0].level == level then [a[0].item] else [];
      assert AtLevel(a + b, level) == h + AtLevel(a[1..] + b, level);
      assert h + (AtLevel(a[1..], level) + AtLevel(b, level)) == (h + AtLevel(a[1..], level)) + AtLevel(b, level);
    }
  }

  lemma {:induction false} AtLevelNone(xs: seq<Visit>, level: nat)
    requires forall x :: x in xs ==> x.level > level
    ensures AtLevel(xs, level) == []
    decreases |xs|
  {
    if xs != [] {
      AtLevelNone(xs[1..], level);
    }
  }

  /** Expanding a folder inserts rows only below it: the rows at the
      starting level are exactly the items, in their order. */
  lemma {:induction false} TopLevelRows(items: seq<TreeItem>, level: nat, e: seq<string>)
    ensures AtLevel(Flatten(items, level, e), level) == items
    decreases |items|
  {
    if items != [] {
      var item := items[0];
      var below := if Descends(item, e) then Flatten(item.children, level + 1, e) else [];
      assert AtLevel(FlattenItem(item, level, e), level) == [item] by {
        if Descends(item, e) {
          FlattenLevels(item.children, level + 1, e);
        }
        AtLevelNone(below, level);
        AtLevelAppend([Visit(item, level)], below, level);
        assert AtLevel([Visit(item, level)], level) == [item];
      }
      AtLevelAppend(FlattenItem(item, level, e), Flatten(items[1..], level, e), level);
      TopLevelRows(items[1..], level, e);
      assert items == [item] + items[1..];
    }
  }

  /** With nothing expanded there is one row per item and nothing below. */
  lemma {:induction false} CollapsedRows(items: seq<TreeItem>, level: nat)
    ensures Flatten(items, level, []) == seq(|items|, i requires 0 <= i < |items| => Visit(items[i], level))
    decreases |items|
  {
    if items != [] {
      CollapsedRows(items[1..], level);
    }
  }

  /** Every visible row shows a node of the tree. */
  lemma {:induction false} FlattenInPreOrder(items: seq<TreeItem>, level: nat, e: seq<string>)
    ensures forall x :: x in Flatten(items, level, e) ==> x.item in PreOrderAll(items)
    decreases items
  {
    if items != [] {
      FlattenItemInPreOrder(items[0], level, e);
      FlattenInPreOrder(items[1..], level, e);
    }
  }

  lemma {:induction false} FlattenItemInPreOrder(item: TreeItem, level: nat, e: seq<string>)
    ensures forall x :: x in FlattenItem(item, level, e) ==> x.item in PreOrder(item)
    decreases item
  {
    if Descends(item, e) {
      FlattenInPreOrder(item.children, level + 1, e);
    }
  }

  /** Two expanded lists that agree on every node below the items give the
      same walk: only the ids of the items' own nodes matter. */
  lemma {:induction false} FlattenCongruent(items: seq<TreeItem>, level: nat, e1: seq<string>, e2: seq<string>)
    requires forall n :: n in PreOrderAll(items) ==> (n.id in e1 <==> n.id in e2)
    ensures Flatten(items, level, e1) == Flatten(items, level, e2)
    decreases items
  {
    if items != [] {
      assert PreOrderAll(items) == PreOrder(items[0]) + PreOrderAll(items[1..]);
      FlattenItemCongruent(items[0], level, e1, e2);
      FlattenCongruent(items[1..], level, e1, e2);
    }
  }

  lemma {:induction false} FlattenItemCongruent(item: TreeItem, level: nat, e1: seq<string>, e2: seq<string>)
    requires forall n :: n in PreOrder(item) ==> (n.id in e1 <==> n.id in e2)
    ensures FlattenItem(item, level, e1) == FlattenItem(item, level, e2)
    decreases item
  {
    assert item == PreOrder(item)[0];
    if item.Folder? {
      assert PreOrder(item) == [item] + PreOrderAll(item.children);
      FlattenCongruent(item.children, level + 1, e1, e2);
    }
  }

  /** Collapsing an expanded folder, whose id no sibling subtree uses,
      removes exactly the folder's descendant rows: the rows before and
      after it, and their order, stay as they were. */
  lemma Collapse(pre: seq<TreeItem>, x: TreeItem, post: seq<TreeItem>, level: nat, e: seq<string>)
    requires Tabs.Distinct(e) && x.id in e
    requires forall n :: n in PreOrderAll(pre) ==> n.id != x.id
    requires forall n :: n in PreOrderAll(post) ==> n.id != x.id
    ensures Flatten(pre + [x] + post, level, e)
      == Flatten(pre, level, e) + FlattenItem(x, level, e) + Flatten(post, level, e)
    ensures Flatten(pre + [x] + post, level, Tabs.Toggle(e, x.id))
      == Flatten(pre, level, e) + [Visit(x, level)] + Flatten(post, level, e)
  {
    var c := Tabs.Toggle(e, x.id);
    Tabs.ToggleFlips(e, x.id);
    assert Flatten([x], level, e) == FlattenItem(x, level, e);
    assert Flatten([x], level, c) == [Visit(x, level)] by {
      assert !Descends(x, c);
      assert FlattenItem(x, level, c) == [Visit(x, level)];
    }
    FlattenAppend(pre, [x], level, e);
    FlattenAppend(pre + [x], post, level, e);
    FlattenAppend(pre, [x], level, c);
    FlattenAppend(pre + [x], post, level, c);
    FlattenCongruent(pre, level, c, e);
    FlattenCongruent(post, level, c, e);
  }
}
