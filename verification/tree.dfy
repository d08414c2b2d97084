/** The node of the file tree the tree pane shows. A folder carries a
    (possibly empty) list of children; a file carries none. This is the
    distinction the source draws between an item with and without the
    optional `children` array. The field the source calls `label` (the
    segment shown in the row) is `name` here, `label` being a Dafny keyword. */
module Tree {

  datatype TreeItem =
    | Leaf(id: string, name: string, title: string)
    | Folder(id: string, name: string, title: string, children: seq<TreeItem>)

  /** `item.children || []`. */
  function Kids(n: TreeItem): seq<TreeItem> {
    if n.Folder? then n.children else []
  }

  /** The labels of a list of siblings, in order. */
  function Labels(items: seq<TreeItem>): (ls: seq<string>)
    ensures |ls| == |items|
    ensures forall i :: 0 <= i < |items| ==> ls[i] == items[i].name
  {
    seq(|items|, i requires 0 <= i < |items| => items[i].name)
  }

  /** No two children of any folder in the tree share a label. */
  predicate UniqueLabels(n: TreeItem) {
    match n
    case Leaf(_, _, _) => true
    case Folder(_, _, _, ks) =>
      && (forall i, j :: 0 <= i < j < |ks| ==> ks[i].name != ks[j].name)
      && (forall c :: c in ks ==> UniqueLabels(c))
  }

  /** Every node of the tree, each before its descendants, siblings in order. */
  function PreOrder(n: TreeItem): seq<TreeItem> {
    match n
    case Leaf(_, _, _) => [n]
    case Folder(_, _, _, ks) => [n] + PreOrderAll(ks)
  }

  function PreOrderAll(ns: seq<TreeItem>): seq<TreeItem> {
    if ns == [] then [] else PreOrder(ns[0]) + PreOrderAll(ns[1..])
  }
}
