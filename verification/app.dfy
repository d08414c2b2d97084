/** The example application: the same tree and tab handling as the
    workbench, but the editor's file is a field of its own that the
    handlers keep in step with the active tab, and the file list comes from
    the loaded project. The project is `None` until it has loaded. */
module App {
  import opened Optional
  import opened Tree
  import opened Tabs
  import PathTree
  import Strings

  /** `_activeFileIndex`, `_editorFilename` (`undefined` being `None`),
      `_expanded`, `_openFiles` and `_selected`. */
  datatype State = State(active: int, editorFilename: Option<string>, expanded: seq<string>, openFiles: seq<string>, selected: Option<string>)

  /** The state the application starts in. */
  const Initial: State := State(0, Some(""), ["/", "/src"], [], None)

  /** What the handlers keep: no repeated open files or expanded ids, and
      while a tab is open the active index names one and the editor shows
      its file. */
  predicate Valid(a: State) {
    && Distinct(a.openFiles)
    && Distinct(a.expanded)
    && (a.openFiles != [] ==> 0 <= a.active < |a.openFiles| && a.editorFilename == Some(a.openFiles[a.active]))
  }

  lemma InitialValid()
    ensures Valid(Initial)
  {
  }

  /** `_onItemOpen(id)`: select the item; when the project is loaded and
      holds the file, activate its tab (opening one if needed) and show it. */
  function OnItemOpen(a: State, project: Option<seq<string>>, id: string): (r: State)
    ensures r.selected == Some(id) && r.expanded == a.expanded
    ensures !(project.Some? && id in project.value) ==> r == a.(selected := Some(id))
    ensures project.Some? && id in project.value ==>
      && r.editorFilename == Some(id)
      && 0 <= r.active < |r.openFiles| && r.openFiles[r.active] == id
      && r.openFiles == (if id in a.openFiles then a.openFiles else a.openFiles + [id])
    ensures Valid(a) ==> Valid(r)
  {
    if project.Some? && id in project.value then
      var o := OpenFile(a.openFiles, id);
      a.(selected := Some(id), openFiles := o.0, active := o.1, editorFilename := Some(id))
    else a.(selected := Some(id))
  }

  /** `_onRequestTabClose(file, index)`: drop the tab, move the active index
      (corrected rule) and show the file at it. */
  function OnRequestTabClose(a: State, index: int): (r: State)
    ensures r.openFiles == Splice(a.openFiles, index)
    ensures r.active == Close(Some(a.active), index, |r.openFiles|)
    ensures r.editorFilename == At(r.openFiles, r.active)
    ensures r.selected == a.selected && r.expanded == a.expanded
  {
    var after := Splice(a.openFiles, index);
    var active := Close(Some(a.active), index, |after|);
    a.(openFiles := after, active := active, editorFilename := At(after, active))
  }

  /** `_onRequestTabClose` with the ternary exactly as the source writes it. */
  function OnRequestTabCloseAsWritten(a: State, index: int): (r: State)
    ensures r.openFiles == Splice(a.openFiles, index)
    ensures r.active == CloseAsWritten(Some(a.active), index, |r.openFiles|)
    ensures r.editorFilename == At(r.openFiles, r.active)
    ensures r.selected == a.selected && r.expanded == a.expanded
  {
    var after := Splice(a.openFiles, index);
    var active := CloseAsWritten(Some(a.active), index, |after|);
    a.(openFiles := after, active := active, editorFilename := At(after, active))
  }

  /** Closing a tab the strip offers keeps the state valid; the editor keeps
      its file unless that file's tab was closed, and shows nothing once the
      last tab is gone. */
  lemma CloseKeepsValid(a: State, index: int)
    requires Valid(a) && 0 <= index < |a.openFiles|
    ensures Valid(OnRequestTabClose(a, index))
    ensures a.active != index ==> OnRequestTabClose(a, index).editorFilename == a.editorFilename
    ensures |a.openFiles| == 1 ==> OnRequestTabClose(a, index).editorFilename.None?
  {
    CloseKeepsActiveFile(a.openFiles, a.active, index);
    SpliceDistinct(a.openFiles, index);
  }

  /** With the as-written rule, closing the third of three tabs while the
      second is active switches the editor to the first. */
  lemma CloseAsWrittenSwitchesFile()
    ensures var a := State(1, Some("b"), [], ["a", "b", "c"], None);
      && Valid(a)
      && OnRequestTabCloseAsWritten(a, 2).editorFilename == Some("a")
  {
    CloseAsWrittenLosesActive();
  }

  /** `_onRequestTabChange(file, index)`: activate the tab and make its file
      both the editor's and the selected one. */
  function OnRequestTabChange(a: State, index: int): (r: State)
    ensures r.active == index && r.openFiles == a.openFiles && r.expanded == a.expanded
    ensures r.editorFilename == r.selected == At(a.openFiles, index)
    ensures Valid(a) && 0 <= index < |a.openFiles| ==> Valid(r)
  {
    var f := At(a.openFiles, index);
    a.(active := index, editorFilename := f, selected := f)
  }

  /** `_onItemSelect(id)`. */
  function OnItemSelect(a: State, id: string): (r: State)
    ensures r.selected == Some(id)
    ensures r.(selected := a.selected) == a
  {
    a.(selected := Some(id))
  }

  /** `_onItemToggle(id)`. */
  function OnItemToggle(a: State, id: string): (r: State)
    ensures r.expanded == Toggle(a.expanded, id)
    ensures r.(expanded := a.expanded) == a
  {
    a.(expanded := Toggle(a.expanded, id))
  }

  lemma ToggleKeepsValid(a: State, id: string)
    requires Valid(a)
    ensures Valid(OnItemToggle(a, id))
    ensures id in OnItemToggle(a, id).expanded <==> id !in a.expanded
  {
    ToggleFlips(a.expanded, id);
  }

  /** The tree `render` hands the tree pane: none before the project has
      loaded, afterwards the tree of its file names (`_getTreeItems`). */
  function Root(project: Option<seq<string>>): (r: Option<TreeItem>)
    ensures r.Some? <==> project.Some?
    ensures r.Some? ==> r.value == PathTree.AddFiles(PathTree.EmptyRoot, Strings.SortAscending(project.value))
  {
    PathTree.TreeRoot(project)
  }

  /** The tab strip is shown only while a tab is open. */
  function ShowsFileBar(a: State): (b: bool)
    ensures b <==> |a.openFiles| > 0
  {
    |a.openFiles| != 0
  }
}
