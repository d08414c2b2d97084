/** The workbench widget's own state and the handlers the tree pane and the
    tab strip call back into. Every handler ends by asking for a re-render,
    which is implicit here: a handler is a function from state to state. */
module Workbench {
  import opened Optional
  import opened Tabs
  import FileBar
  import Strings

  /** `_expanded`, `_selected`, `_activeFileIndex` (unset until the first
      open) and `openFiles`. */
  datatype State = State(expanded: seq<string>, selected: Option<string>, active: Option<int>, openFiles: seq<string>)

  /** The state a new workbench starts in: the root and `/src` folders expanded. */
  const Initial: State := State(["/", "/src"], None, None, [])

  /** The state every handler keeps: open files without repeats, expanded
      ids without repeats, and an active index naming a tab whenever a tab
      is open. */
  predicate Valid(w: State) {
    && Distinct(w.openFiles)
    && Distinct(w.expanded)
    && (w.openFiles != [] ==> w.active.Some? && 0 <= w.active.value < |w.openFiles|)
  }

  lemma InitialValid()
    ensures Valid(Initial)
  {
  }

  /** `_onItemOpen(id)`: select the item; when it is one of the workbench's
      files, activate its tab, opening one if needed. */
  function OnItemOpen(w: State, files: Option<seq<string>>, id: string): (r: State)
    ensures r.selected == Some(id) && r.expanded == w.expanded
    ensures id !in files.GetOr([]) ==> r == w.(selected := Some(id))
    ensures id in files.GetOr([]) ==> r.active.Some? && 0 <= r.active.value < |r.openFiles| && r.openFiles[r.active.value] == id
    ensures id in files.GetOr([]) ==> r.openFiles == (if id in w.openFiles then w.openFiles else w.openFiles + [id])
    ensures Valid(w) ==> Valid(r)
  {
    if id in files.GetOr([]) then
      var o := OpenFile(w.openFiles, id);
      w.(selected := Some(id), openFiles := o.0, active := Some(o.1))
    else w.(selected := Some(id))
  }

  /** `_onItemClose(file, index)`: drop the tab and move the active index
      (with the corrected rule; see `Tabs.Close`). */
  function OnItemClose(w: State, index: int): (r: State)
    ensures r.openFiles == Splice(w.openFiles, index)
    ensures r.active == Some(Close(w.active, index, |r.openFiles|))
    ensures r.selected == w.selected && r.expanded == w.expanded
  {
    var after := Splice(w.openFiles, index);
    w.(openFiles := after, active := Some(Close(w.active, index, |after|)))
  }

  /** `_onItemClose` with the ternary exactly as the source writes it. */
  function OnItemCloseAsWritten(w: State, index: int): (r: State)
    ensures r.openFiles == Splice(w.openFiles, index)
    ensures r.active == Some(CloseAsWritten(w.active, index, |r.openFiles|))
    ensures r.selected == w.selected && r.expanded == w.expanded
  {
    var after := Splice(w.openFiles, index);
    w.(openFiles := after, active := Some(CloseAsWritten(w.active, index, |after|)))
  }

  /** Closing a tab the strip offers keeps the state valid, and the editor
      keeps showing the same file unless its own tab was closed. */
  lemma CloseKeepsValid(w: State, index: int)
    requires Valid(w) && 0 <= index < |w.openFiles|
    ensures Valid(OnItemClose(w, index))
    ensures w.active.value != index ==> EditorFile(OnItemClose(w, index)) == EditorFile(w)
    ensures w.active.value == index && |w.openFiles| > 1 ==> EditorFile(OnItemClose(w, index)).Some?
  {
    CloseKeepsActiveFile(w.openFiles, w.active.value, index);
    SpliceDistinct(w.openFiles, index);
  }

  /** The as-written close can switch the editor to another file although
      its tab stayed open. */
  lemma CloseAsWrittenSwitchesFile()
    ensures var w := State([], None, Some(1), ["a", "b", "c"]);
      && Valid(w)
      && OnItemCloseAsWritten(w, 2).openFiles == ["a", "b"]
      && EditorFile(OnItemCloseAsWritten(w, 2)) == Some("a")
      && EditorFile(w) == Some("b")
  {
    CloseAsWrittenLosesActive();
  }

  /** `_onItemChange(file, index)`: the requested tab becomes active. */
  function OnItemChange(w: State, index: int): (r: State)
    ensures r.active == Some(index)
    ensures r.openFiles == w.openFiles && r.selected == w.selected && r.expanded == w.expanded
    ensures 0 <= index < |w.openFiles| ==> EditorFile(r) == Some(w.openFiles[index])
  {
    w.(active := Some(index))
  }

  /** `_onItemSelect(id)`. */
  function OnItemSelect(w: State, id: string): (r: State)
    ensures r.selected == Some(id)
    ensures r.openFiles == w.openFiles && r.active == w.active && r.expanded == w.expanded
  {
    w.(selected := Some(id))
  }

  /** `_onItemToggle(id)`. */
  function OnItemToggle(w: State, id: string): (r: State)
    ensures r.expanded == Toggle(w.expanded, id)
    ensures r.openFiles == w.openFiles && r.active == w.active && r.selected == w.selected
  {
    w.(expanded := Toggle(w.expanded, id))
  }

  /** A toggle keeps the state valid and flips whether the folder is expanded. */
  lemma ToggleKeepsValid(w: State, id: string)
    requires Valid(w)
    ensures Valid(OnItemToggle(w, id))
    ensures id in OnItemToggle(w, id).expanded <==> id !in w.expanded
  {
    ToggleFlips(w.expanded, id);
  }

  /** The file `render` hands the editor: the open file at the active index. */
  function EditorFile(w: State): (f: Option<string>)
    ensures f.Some? <==> w.active.Some? && 0 <= w.active.value < |w.openFiles|
    ensures f.Some? ==> f.value == w.openFiles[w.active.value]
  {
    if w.active.Some? then At(w.openFiles, w.active.value) else None
  }

  /** The tabs `render` hands the toolbar: one closeable, enabled tab per
      open file, labelled with the file name after the last separator. */
  function TabItems(w: State): (items: seq<FileBar.FileItem>)
    ensures |items| == |w.openFiles|
    ensures forall i :: 0 <= i < |items| ==> items[i].key == w.openFiles[i] && !items[i].disabled
    ensures forall i :: 0 <= i < |items| ==>
      items[i].closeable && items[i].caption == Strings.LastSegment(w.openFiles[i], Strings.PathSeparators)
  {
    FileItems(w.openFiles)
  }

  /** Opening a file makes the editor show it, and the tab strip marks it active. */
  lemma OpenShowsFile(w: State, files: seq<string>, id: string)
    requires id in files
    ensures EditorFile(OnItemOpen(w, Some(files), id)) == Some(id)
    ensures var r := OnItemOpen(w, Some(files), id);
      TabItems(r)[r.active.value].key == id
  {
  }
}
