/** The tree pane widget as a whole: the state it keeps between renders,
    what `render` recomputes, and how its pieces fit together. */
module TreePane {
  import opened Optional
  import opened Tree
  import opened TreePaneRows
  import opened TreePaneScroll
  import opened TreePaneItems

  /** The properties the pane reads. */
  datatype Props = Props(expanded: seq<string>, selected: Option<string>, showRoot: bool, root: Option<TreeItem>)

  /** The private fields the pane keeps: drag latch, scroll state, the
      visible row count last measured from the DOM, and the id cache. */
  datatype Pane = Pane(drag: Drag, scroll: Scroll, visibleRowCount: real, items: Cache)

  /** `_onDomUpdate(element, key)`: when the rows container is created or
      updated, the visible row count becomes its height in rows. */
  function OnDomUpdate(p: Pane, key: string, clientHeight: real): (r: Pane)
    ensures key == "rows" ==> r.visibleRowCount * RowHeight == clientHeight
    ensures r.(visibleRowCount := p.visibleRowCount) == p
    ensures key != "rows" ==> r == p
  {
    if key == "rows" then p.(visibleRowCount := clientHeight / RowHeight) else p
  }

  /** `render()`: rebuild the cache, walk the rows for the current position,
      then record `size` and `sliderSize` from the walk. */
  function Render(p: Pane, props: Props): (r: (Pane, seq<Option<Row>>))
    ensures r.0.scroll == Measure(p.scroll.position, |r.1|, p.visibleRowCount)
    ensures r.0.scroll.size == |r.1| as real && Measured(r.0.scroll)
    ensures r.0.drag == p.drag && r.0.visibleRowCount == p.visibleRowCount
    ensures r.0.items == CacheItems(p.items, props.root)
    ensures |r.1| == |Flatten(TopItems(props.root, props.showRoot), 1, props.expanded)|
    ensures var v := ViewAt(props.expanded, props.selected, p.scroll.position, p.visibleRowCount);
      forall k :: 0 <= k < |r.1| ==> (r.1[k].Some? <==> InWindow(k + 1, v))
    ensures var v := ViewAt(props.expanded, props.selected, p.scroll.position, p.visibleRowCount);
      var flat := Flatten(TopItems(props.root, props.showRoot), 1, props.expanded);
      forall k :: 0 <= k < |r.1| && r.1[k].Some? ==> r.1[k].value == MakeRow(flat[k].item, flat[k].level, v)
  {
    var items := CacheItems(p.items, props.root);
    var v := ViewAt(props.expanded, props.selected, p.scroll.position, p.visibleRowCount);
    var rows := RenderChildren(props.root, props.showRoot, v);
    (p.(items := items, scroll := Measure(p.scroll.position, |rows|, p.visibleRowCount)), rows)
  }

  /** Every row the walk shows is a node of the tree under the root. */
  lemma TopItemsInPreOrder(root: TreeItem, showRoot: bool, e: seq<string>)
    ensures forall x :: x in Flatten(TopItems(Some(root), showRoot), 1, e) ==> x.item in PreOrder(root)
  {
    var top := TopItems(Some(root), showRoot);
    FlattenInPreOrder(top, 1, e);
    if showRoot {
      assert PreOrderAll([root]) == PreOrder(root) + PreOrderAll([]);
    } else {
      match root
      case Leaf(_, _, _) =>
      case Folder(_, _, _, ks) =>
        assert PreOrder(root) == [root] + PreOrderAll(ks);
    }
  }

  /** Clicking a row the last render showed never hits the "uncached row"
      error: the cache holds every node of the tree, expanded or not. */
  lemma RenderedRowsAreCached(p: Pane, props: Props, k: int)
    requires props.root.Some?
    requires 0 <= k < |Render(p, props).1| && Render(p, props).1[k].Some?
    ensures Render(p, props).1[k].value.key in Render(p, props).0.items
    ensures forall sel, h :: !RowClick(Render(p, props).0.items, sel, h, Render(p, props).1[k].value.key).uncached
  {
    var root := props.root.value;
    var v := ViewAt(props.expanded, props.selected, p.scroll.position, p.visibleRowCount);
    var flat := Flatten(TopItems(props.root, props.showRoot), 1, props.expanded);
    var x := flat[k];
    assert x in flat;
    TopItemsInPreOrder(root, props.showRoot, props.expanded);
    assert x.item in PreOrder(root);
  }

  /** After a render, every scroll source leaves the position in
      `[0, size - sliderSize + 1]`, a range that holds at least `[0, 1]`. */
  lemma ScrollAfterRender(p: Pane, props: Props, delta: real)
    ensures var s := Render(p, props).0.scroll;
      && s.size - s.sliderSize >= 0.0
      && 0.0 <= UpdatePosition(s, delta).0.position <= s.size - s.sliderSize + 1.0
  {
  }
}
