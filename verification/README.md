# web-editor core, modelled in Dafny

This project models the logic inside the web-editor widgets: a browser
workbench that shows a project's files as a tree, opens them in tabs and
hands the active one to an embedded code editor. Rendering, the editor
engine and all network loading are thin wrappers and stay outside the
model. What is modelled, module by module:

- `PathTree` (with `Strings`, `Tree`, `Optional`) models `addFile`. It turns a flat list of
  `/`- or `\`-separated paths into a tree of `TreeItem`s, reusing children by
  label. A leading `.` segment switches an id-less root to a `.` folder, and a
  trailing separator marks a folder. `_getTreeRoot` / `_getTreeItems` sort the
  list and fold `addFile` over it. The model also covers the example
  application's variant, which accepts an absent root.
- `TreePaneRows`, `TreePaneScroll`, `TreePaneItems` and `TreePane` model the
  virtualised tree pane:
  - the pre-order walk of the expanded tree, where only the rows inside a
    window around the scroll position are materialised and the others are
    `null` slots;
  - the row properties;
  - the clamped position update that the scroll bar, the mouse wheel and
    pointer drags all go through;
  - the drag latch, and the measured `size` and `sliderSize`;
  - the id cache and the single and double row clicks.
- `FileBar` models the tab strip:
  - the search for an enabled tab with wrap-around (`_validateIndex`);
  - selection requests, and the keyboard navigation built on them, with
    Up/Down gated by alignment;
  - close requests and the tab buttons.
- `Tabs`, `Workbench` and `App` model the open-file bookkeeping of the
  workbench widget and of the example application: opening, closing and
  switching tabs, the active index after a close, expanding and collapsing
  folders, and the tab labels.
- `IconCss` models the generated icon style sheet. `Themes` models the
  conversion of a colour-theme file into an editor theme definition.

JavaScript semantics are written out:

- `split` on an empty string gives one empty part.
- String `<` is lexicographic on characters, compared as Unicode scalar
  values (`Strings.LexLess`); see "## Left out" for where this differs from
  JavaScript's UTF-16 code-unit order.
- The comparator sort is the unique ascending arrangement of the list.
- `array[i]` outside the array is `undefined` (`Optional.At`).
- `splice(i, 1)` follows JavaScript's index clamping.
- `undefined` and `null` are `None`.

Row counts, pixel offsets and scroll positions are exact reals.

How the scroll code behaves at its edges:

- The scroll position is clamped to `[0, size - sliderSize + 1]`, one row
  beyond `size - sliderSize`. So with 100 rows, 10 visible, at row 95,
  scrolling down 50 rows stops at 91 (`TreePaneScroll.ExampleClamp`).
- The window start is `position ? position - 1 : 0` (a truthiness test), so
  any non-zero position, fractional ones included, starts the window one
  row earlier (`TreePaneRows.ViewAt`).

Behaviour the model makes visible (not treated as defects):

- Home searches backward from tab 0. When tab 0 is disabled it lands on the
  last enabled tab (`FileBar.HomeLandsOnLastEnabled`). End searches forward
  from the last tab and so wraps to the first enabled one
  (`FileBar.EndLandsOnFirstEnabled`).
- A `.`-relative path that reaches the still id-less root replaces the root
  with a `.` folder. Files folded in before it disappear: from `./b` and
  `../a` only `./b` remains (`PathTree.DotPathDropsEarlierFiles`). This is
  why the "every file is in the tree" lemmas exclude that case.
- The id cache keeps the last node seen for a repeated id
  (`TreePaneItems.CacheItems`).

## Model

| member | source | states |
|---|---|---|
| `PathTree.FindLabel` | src/Workbench.ts:106 | the child found is the first one whose label is the segment; when none is found, no child carries it |
| `PathTree.AddPath` | src/Workbench.ts:100-120 | walking the segments keeps the node's id, label and title; the node ends up a folder when a segment remains, a trailing separator marks it, or it already was one; with nothing left to walk it is unchanged; every existing child label stays and at most one child is added per level |
| `PathTree.Delimiter` | src/Workbench.ts:87 | ids are joined with `/` exactly when the path contains no backslash, otherwise with `\` |
| `PathTree.AddFile` | src/Workbench.ts:84-122 | the result's id is `.` when a `.`-relative path meets an id-less root, the old root id otherwise; a path with segments always leaves a folder at the root |
| `PathTree.AddFileOrCreate` | src/examples/index.ts:24-32 | with no root the example builder adds the file to an empty folder with empty id, label and title; with a root it is the workbench's `addFile` |
| `PathTree.AddPathContains` | src/Workbench.ts:101-120 | after the walk, following the segments by first label match reaches a node through folders, and that node is a folder when the path ended in a separator |
| `PathTree.AddFileContains` | src/Workbench.ts:84-122 | after `addFile` the file's path is in the tree |
| `PathTree.AddFileIdempotent` | src/Workbench.ts:84-122 | adding the same file twice gives the same tree as adding it once |
| `PathTree.AddFileKeeps` | src/Workbench.ts:100-117 | unless the root is replaced by the `.` root, adding a file keeps every path already in the tree |
| `PathTree.AddFilesContainsAll` | src/Workbench.ts:126-132 | after folding the file list, every file's path is in the tree, provided the root is not replaced half-way |
| `PathTree.AddFilesIdempotent` | src/Workbench.ts:126-132 | folding the same non-empty list again over the built tree changes nothing, provided the root is not replaced half-way (it has an id, the first file has the leading `.`, or no file does) |
| `PathTree.AddFilesRootId` | src/Workbench.ts:89-99 | the fold's root keeps its id or becomes `.`; once it has an id it never loses it |
| `PathTree.AddPathKeeps` | src/Workbench.ts:100-120 | walking one path keeps every path that was already in the tree |
| `PathTree.AddPathPresent` | src/Workbench.ts:100-120 | walking a path that is already in the tree leaves the tree unchanged |
| `PathTree.AddPathUnique` | src/Workbench.ts:106-114 | a subtree without same-label siblings anywhere stays so after the walk |
| `PathTree.AddFilesPresent` | src/Workbench.ts:126-132 | folding files whose paths are all present already leaves the tree unchanged, provided the root has an id or no file has a leading `.` segment |
| `PathTree.AddFileUnique` | src/Workbench.ts:106-114 | `addFile` never gives a folder two children with the same label |
| `PathTree.AddFilesUnique` | src/Workbench.ts:126-132 | the built tree has no two same-label siblings anywhere |
| `PathTree.AddFileNamed` | src/Workbench.ts:108-112 | adding a `.`-free file whose delimiter is `d` keeps every node's id and title equal to its path joined by `d` |
| `PathTree.AddFilesNamed` | src/Workbench.ts:108-112 | for `/`-separated paths without a leading `.`, every node's id and title are its path from the root joined by `/` |
| `PathTree.TreeRoot` | src/Workbench.ts:124-133 | there is a tree exactly when there is a file list |
| `PathTree.TreeRootOrderFree` | src/Workbench.ts:126-127 | the tree does not depend on the order of the file list |
| `PathTree.TreeRootHoldsFiles` | src/examples/index.ts:85-94 | for paths without a leading `.`, the tree holds every file and has unique sibling labels |
| `PathTree.ExampleTree` | src/Workbench.ts:124-133 | `d.ts`, `a/c.ts`, `a/b.ts` become folder `a` (holding `b.ts` then `c.ts`) followed by file `d.ts` |
| `PathTree.ExampleSorted` | src/Workbench.ts:127 | `d.ts`, `a/c.ts`, `a/b.ts` sort to `a/b.ts`, `a/c.ts`, `d.ts` |
| `PathTree.DotPathIgnoresRoot` | src/Workbench.ts:89-99 | any path with a leading `.` segment added to an id-less root builds the same tree as when added to the bare `.` root |
| `PathTree.DotPathReplacesRoot` | src/Workbench.ts:89-99 | `./b` added to any id-less root gives the `.` folder holding only `b`, dropping the root's contents |
| `PathTree.DotPathDropsEarlierFiles` | src/Workbench.ts:124-133 | from `./b` and `../a`, only `./b` ends up in the tree |
| `PathTree.AddFilesHolds` | src/Workbench.ts:126-132 | the `i`-th file of the list has its path in the folded tree, provided the root is not replaced half-way |
| `Strings.Split` | src/Workbench.ts:86 | splitting gives one more part than there are separators |
| `Strings.SplitNoSeparators` | src/Workbench.ts:86 | no part of a split contains a separator |
| `Strings.JoinSplit` | src/Workbench.ts:109 | joining the parts of a split on one separator gives the string back |
| `Strings.SplitJoin` | src/Workbench.ts:109-111 | splitting an id built by joining separator-free segments gives the segments back |
| `Strings.SlashOnlyCount` | src/Workbench.ts:87 | splitting on `/` alone gives as many parts as splitting on both separators exactly when there is no backslash |
| `Strings.LastSegmentSuffix` | src/Workbench.ts:73 | the last part of a split is the text after the last separator, or the whole string when there is none |
| `Strings.LexLessTransitive` | src/Workbench.ts:127 | the string comparison the sort uses is transitive |
| `Strings.LexLessIrreflexive` | src/Workbench.ts:127 | no string is below itself |
| `Strings.LexLessTotal` | src/Workbench.ts:127 | of two different strings one is below the other |
| `Strings.InsertSorted` | src/Workbench.ts:127 | inserting into an ascending list keeps it ascending and adds exactly the one element |
| `Strings.SortAscending` | src/Workbench.ts:127 | the sorted list is ascending and a permutation of the input |
| `Strings.AscendingUnique` | src/examples/index.ts:88 | two ascending permutations of the same list are equal, so the sort's result is determined |
| `TreePaneRows.MakeRow` | src/TreePane.ts:196-212 | a row carries the item's id, label and title and its level; it has children exactly for a folder, is expanded exactly when its id is in the expanded list, and is selected exactly when its id is the selected one |
| `TreePaneRows.ViewAt` | src/TreePane.ts:224-225 | the window starts one row before a non-zero position (at 0 for position 0) and spans the visible row count plus two |
| `TreePaneRows.RenderItems` | src/TreePane.ts:228-236 | the walk yields one slot per row of the pre-order flattening of the expanded tree, and the slot of the `k`-th row is that row's properties exactly when `k` is inside the window |
| `TreePaneRows.RenderChildren` | src/TreePane.ts:214-243 | starting from `[root]` or the root's children, slot `k` holds a row exactly when row `k + 1` is in the window, and then holds the properties of the `k`-th visible item at its depth |
| `TreePaneRows.TopLevelRows` | src/TreePane.ts:229-234 | the rows at the starting level are exactly the starting items, in order; expansion only inserts deeper rows after their parent |
| `TreePaneRows.FlattenAppend` | src/TreePane.ts:228-236 | walking two sibling lists one after the other gives the rows of the first followed by those of the second |
| `TreePaneRows.FlattenCongruent` | src/TreePane.ts:228-236 | two expanded lists that agree on every id under the items give the same rows |
| `TreePaneRows.Collapse` | src/TreePane.ts:228-236 | on a repeat-free expanded list, collapsing a folder whose id no sibling subtree shares removes exactly its descendant rows; the rows before and after it stay, in order |
| `TreePaneRows.CollapsedRows` | src/TreePane.ts:232 | with nothing expanded there is exactly one row per item |
| `TreePaneRows.FlattenLevels` | src/TreePane.ts:233 | every row is at least as deep as the starting level |
| `TreePaneRows.FlattenInPreOrder` | src/TreePane.ts:228-236 | every visible row shows a node of the tree below the starting items |
| `TreePaneScroll.Measure` | src/TreePane.ts:273-274 | `size` is the slot count and `sliderSize` is the smaller of the visible row count and `size` |
| `TreePaneScroll.MeasureFits` | src/TreePane.ts:273-274 | the slider spans the whole track exactly when every row fits, and equals the visible row count exactly when that does not exceed the rows there are |
| `TreePaneScroll.UpdatePosition` | src/TreePane.ts:159-169 | the new position is the old one plus the delta, clamped to 0 below and to `size - sliderSize + 1` above; the result flag is true exactly when the position changed |
| `TreePaneScroll.UpdatesStayInRange` | src/TreePane.ts:159-163 | any run of updates from a measured state stays within `[0, size - sliderSize + 1]` |
| `TreePaneScroll.PushPastEnd` | src/TreePane.ts:163-168 | at either end, pushing further changes nothing and reports no change |
| `TreePaneScroll.MeasuredRangeNonEmpty` | src/TreePane.ts:162 | after measuring, the position range always includes `[0, 1]` |
| `TreePaneScroll.ExampleClamp` | src/TreePane.ts:162-163 | 100 rows, 10 visible, at 95, scrolled by 50: the position becomes 91 and the update reports a change |
| `TreePaneScroll.DragStart` | src/TreePane.ts:123-127 | a drag start latches dragging on at the pointer's position |
| `TreePaneScroll.DragStartForgets` | src/TreePane.ts:123-127 | the latch state before a drag start plays no part in the state after it |
| `TreePaneScroll.DragEnd` | src/TreePane.ts:142-145 | a drag end latches dragging off |
| `TreePaneScroll.DragMove` | src/TreePane.ts:129-140 | while dragging, a move scrolls by the pointer's travel in rows and records the new pointer position; otherwise nothing changes |
| `TreePaneScroll.MoveAfterEnd` | src/TreePane.ts:134 | after a drag end, pointer moves do nothing |
| `TreePaneScroll.MoveAfterStart` | src/TreePane.ts:136-138 | right after a drag start, a move scrolls by the travel since the start and dragging stays on |
| `TreePaneScroll.Wheel` | src/TreePane.ts:190-194 | a wheel event scrolls by its delta in rows, and the browser's scrolling is prevented exactly when the position moved |
| `TreePaneScroll.ScrollbarScroll` | src/TreePane.ts:186-188 | a scroll-bar move keeps `size` and `sliderSize`, keeps a measured state within `[0, size - sliderSize + 1]`, is taken exactly when it lands in that range, and otherwise stops at 0 or at `size - sliderSize + 1`, whichever it overshot |
| `TreePaneScroll.ScrollbarBack` | src/TreePane.ts:186-188 | moving the scroll bar by a delta and back restores the state when both positions are in range |
| `TreePaneItems.CacheItems` | src/TreePane.ts:103-115 | without a root the cache is untouched; with one, its keys are exactly the ids of all nodes, each mapping to the last node in pre-order with that id |
| `TreePaneItems.CacheItemIsRecord` | src/TreePane.ts:104-109 | the recursive fill records the nodes in pre-order, each before its children |
| `TreePaneItems.RecordKeys` | src/TreePane.ts:104-109 | recording nodes adds exactly their ids to the cache's keys |
| `TreePaneItems.RecordLastWins` | src/TreePane.ts:105 | for a repeated id, the later node overwrites the earlier one |
| `TreePaneItems.RowClick` | src/TreePane.ts:171-180 | a click asks for selection exactly when a select handler is given and the row is not already selected, fails exactly for an uncached id, and asks for a toggle exactly for a cached folder; selection comes first |
| `TreePaneItems.RowDblClick` | src/TreePane.ts:182-184 | a double click asks to open the row exactly when there is a handler, folder or file alike |
| `TreePane.OnDomUpdate` | src/TreePane.ts:117-121 | the rows container's height, in rows, becomes the visible row count; other elements change nothing |
| `TreePane.Render` | src/TreePane.ts:253-274 | rendering rebuilds the cache, lays out one slot per visible row and records `size` (the slot count) and `sliderSize` (the visible row count cut down to `size`), leaving the position alone; slot `k` holds a row exactly when row `k + 1` is in the window around the position, and then holds the `k`-th visible item's properties |
| `TreePane.TopItemsInPreOrder` | src/TreePane.ts:238-240 | whether or not the root is shown, every row shows a node of the root's tree |
| `TreePane.RenderedRowsAreCached` | src/TreePane.ts:171-175 | clicking any row the last render showed never raises the uncached-row error |
| `TreePane.ScrollAfterRender` | src/TreePane.ts:159-163 | after a render, every update leaves the position within `[0, size - sliderSize + 1]`, a range with `size >= sliderSize` |
| `FileBar.Step` | src/FileBar.ts:104-109 | one search step moves to the next tab (forward) or the previous one (backward), wrapping round |
| `FileBar.PosStep` | src/FileBar.ts:113-115 | stepping from the tab `d` steps from the start reaches the tab `d + 1` steps from it |
| `FileBar.PosOnto` | src/FileBar.ts:113-116 | every tab is reached from any start in fewer than `n` steps, so the search cannot loop forever once some tab is enabled |
| `FileBar.StartIndex` | src/FileBar.ts:111 | the search starts at the requested index when a tab is there, otherwise at the last tab |
| `FileBar.ValidateIndex` | src/FileBar.ts:97-118 | the result is `null` exactly when every tab is disabled (including no tabs); otherwise it is the first enabled tab met walking from the start in the given direction, and an enabled start is returned unchanged |
| `FileBar.FirstEnabledUnique` | src/FileBar.ts:113-117 | the walk meets only one first enabled tab |
| `FileBar.SelectIndex` | src/FileBar.ts:131-143 | a change is requested exactly when the owner handles change requests and the search finds a tab other than the active one; the request carries that tab's file and index |
| `FileBar.NextIndex` | src/FileBar.ts:149-153 | Next starts at the tab after the active one, wrapping from the last to the first |
| `FileBar.PreviousIndex` | src/FileBar.ts:155-159 | Previous starts at the tab before the active one, wrapping from the first to the last |
| `FileBar.KeyTarget` | src/FileBar.ts:39-61 | Up and Down do nothing unless the buttons are aligned left or right; Right/Down search forward from Next, Left/Up backward from Previous; Home searches backward from 0, End forward from the last tab |
| `FileBar.KeyPress` | src/FileBar.ts:39-91 | a key press requests a change exactly when the key moves the search (Up/Down only on a vertical strip), a handler is given, some tab is enabled and the search lands on a tab other than the active one; the request is for that enabled tab |
| `FileBar.ArrowAlwaysMoves` | src/FileBar.ts:47-53 | with two or more tabs, all enabled, the Left and Right searches never land on the active tab, so those keys always request a change |
| `FileBar.HomeLandsOnLastEnabled` | src/FileBar.ts:127-129 | with tab 0 disabled, Home selects the last enabled tab |
| `FileBar.EndLandsOnFirstEnabled` | src/FileBar.ts:145-147 | with the last tab disabled, End wraps to the first enabled tab |
| `FileBar.RightWhenAllEnabled` | src/FileBar.ts:51-53 | with every tab enabled, Right moves to the next tab round the strip |
| `FileBar.CloseIndex` | src/FileBar.ts:120-125 | a close is requested exactly when there is a handler, with the tab's file (or nothing when the index has no tab) and the index |
| `FileBar.Buttons` | src/FileBar.ts:63-95 | one button per tab in order, carrying the tab's key, label, closeable and disabled flags; exactly the button at the active index is active |
| `FileBar.Vertical` | src/FileBar.ts:177-194 | the strip is vertical exactly when the buttons are aligned left or right |
| `Tabs.IndexOf` | src/Workbench.ts:142 | the index is -1 exactly when the file is absent; otherwise it is the file's first position |
| `Tabs.Splice` | src/Workbench.ts:154 | removing at an index removes exactly that element; an index past the end removes nothing; negative indexes count from the end, and one below `-length` removes the first element |
| `Tabs.SpliceDistinct` | src/Workbench.ts:154 | removing a tab from a repeat-free list leaves exactly the other files, still without repeats |
| `Tabs.OpenFile` | src/Workbench.ts:140-147 | after an open the active index names the file; an open file keeps its tab, a new one gets a tab at the end; no repeats are introduced |
| `Tabs.OpenTwice` | src/Workbench.ts:140-147 | opening the same file again changes nothing |
| `Tabs.OpenedAtItsOnlyPosition` | src/Workbench.ts:141-142 | with no repeats, the active index is the only position of the opened file |
| `Tabs.CloseAsWritten` | src/Workbench.ts:155-158 | the active index after a close as written: past the end it goes to the last tab, on the closed tab it stays, any other non-zero index moves one left, and 0 or unset gives 0 |
| `Tabs.CloseAsWrittenLosesActive` | src/Workbench.ts:155-158 | with `a`, `b`, `c` open and `b` active, closing `c` makes `a` active |
| `Tabs.CloseAsWrittenInRange` | src/examples/index.ts:185-188 | the as-written index still names a tab, or is -1 once no tab is left |
| `Tabs.Close` | src/Workbench.ts:153-160 | corrected rule: an index after the closed tab moves left with its file, the closed tab's place passes to the tab that slides in (or the new last tab), an index before it stays |
| `Tabs.CloseDiffers` | src/Workbench.ts:155-158 | the corrected and the as-written rules differ exactly when the active tab lies strictly between the first tab and the closed one |
| `Tabs.CloseKeepsActiveFile` | src/examples/index.ts:183-189 | with the corrected rule, closing another tab keeps the same file active, the index stays valid (-1 when none are left), and closing the active tab activates a file that was open |
| `Tabs.Toggle` | src/Workbench.ts:172-181 | an absent id is appended at the end; a present id loses exactly one occurrence and every other entry stays |
| `Tabs.ToggleFlips` | src/examples/index.ts:173-181 | on a repeat-free list a toggle flips the id's membership, leaves every other id alone and introduces no repeats |
| `Tabs.ToggleTwice` | src/examples/index.ts:173-181 | toggling twice restores membership, and restores the list exactly when the folder started collapsed |
| `Tabs.FileItems` | src/examples/index.ts:100-108 | one tab per open file in order, keyed by the path, closeable, enabled, and labelled with the last path segment |
| `Tabs.TabLabels` | src/Workbench.ts:73 | each tab label is the end of its path after the last separator and contains no separator |
| `Tabs.TabsSelectable` | src/Workbench.ts:67-76 | the tabs built from the open files are all disabled exactly when no file is open, so the strip always finds a tab to select |
| `Workbench.InitialValid` | src/Workbench.ts:58-65 | the starting state has no open files, `/` and `/src` expanded, and satisfies the invariant |
| `Workbench.OnItemOpen` | src/Workbench.ts:136-151 | opening selects the item; for one of the workbench's files it activates the file's tab, opening one at the end if needed; any other id changes nothing else; the invariant is kept |
| `Workbench.OnItemClose` | src/Workbench.ts:153-160 | closing removes the tab and moves the active index by the corrected rule |
| `Workbench.OnItemCloseAsWritten` | src/Workbench.ts:153-160 | closing removes the tab and moves the active index by the rule as written |
| `Workbench.CloseKeepsValid` | src/Workbench.ts:153-160 | closing a tab keeps the invariant, and the editor's file stays the same unless its tab was closed |
| `Workbench.CloseAsWrittenSwitchesFile` | src/Workbench.ts:155-158 | as written, closing `c` with `b` active switches the editor from `b` to `a` |
| `Workbench.OnItemChange` | src/Workbench.ts:162-165 | a tab change makes the requested tab active and the editor shows its file |
| `Workbench.OnItemSelect` | src/Workbench.ts:167-170 | selecting changes only the selected id |
| `Workbench.OnItemToggle` | src/Workbench.ts:172-181 | toggling changes only the expanded list |
| `Workbench.ToggleKeepsValid` | src/Workbench.ts:172-181 | a toggle keeps the invariant and flips whether the folder is expanded |
| `Workbench.EditorFile` | src/Workbench.ts:197 | the editor gets a file exactly when the active index names an open tab, and then it is the open file at that index |
| `Workbench.TabItems` | src/Workbench.ts:67-76 | one closeable, enabled tab per open file, keyed by the path and labelled with the file name after the last separator, in order |
| `Workbench.OpenShowsFile` | src/Workbench.ts:136-151 | after opening one of the files, the editor shows it and its tab is the active one |
| `App.InitialValid` | src/examples/index.ts:76-83 | the application starts with no open files and satisfies its invariant |
| `App.OnItemOpen` | src/examples/index.ts:154-166 | opening selects the item; when the project is loaded and holds the file, the file's tab becomes active and the editor shows it; the invariant is kept |
| `App.OnRequestTabClose` | src/examples/index.ts:183-191 | closing removes the tab, moves the active index by the corrected rule and shows the file at the new index, or nothing |
| `App.OnRequestTabCloseAsWritten` | src/examples/index.ts:183-191 | the same with the active-index rule as written |
| `App.CloseKeepsValid` | src/examples/index.ts:183-191 | closing keeps the invariant; the editor keeps its file unless that tab was closed, and shows nothing after the last tab closes |
| `App.CloseAsWrittenSwitchesFile` | src/examples/index.ts:185-189 | as written, closing `c` with `b` active switches the editor to `a` |
| `App.OnRequestTabChange` | src/examples/index.ts:193-196 | a tab change activates the tab and makes its file both the editor's and the selected one; the invariant is kept |
| `App.OnItemSelect` | src/examples/index.ts:168-171 | selecting changes only the selected id |
| `App.OnItemToggle` | src/examples/index.ts:173-181 | toggling changes only the expanded list |
| `App.ToggleKeepsValid` | src/examples/index.ts:173-181 | a toggle keeps the invariant and flips whether the folder is expanded |
| `App.Root` | src/examples/index.ts:258 | the tree pane gets no root before the project loads, and afterwards the tree built from the sorted file names |
| `App.ShowsFileBar` | src/examples/index.ts:267 | the tab strip is shown exactly while a file is open |
| `IconCss.Before` | src/IconCss.ts:17-19 | the pseudo-element selector is the selector followed by `::before` |
| `IconCss.ToSelector` | src/IconCss.ts:21-23 | a selector of two classes is `.` + first + `.` + second |
| `IconCss.IconStyle` | src/IconCss.ts:25-27 | a rule is the `::before` selector, then the declaration block with the icon URL as the background image, ending in a line break |
| `IconCss.Rules` | src/IconCss.ts:29-31 | there is one rule per icon key, in enumeration order, for the selector `.` + base class + `.` + key and that key's URL |
| `IconCss.StylesFromJson` | src/IconCss.ts:12-34 | the sheet is empty exactly when there are no icon definitions, and otherwise starts with the first key's selector |
| `IconCss.StylesAppend` | src/IconCss.ts:29-31 | the sheet for two key lists is their sheets one after the other |
| `IconCss.RuleAt` | src/IconCss.ts:29-31 | each key's rule appears after the rules of the earlier keys and before those of the later ones |
| `IconCss.RenderChild` | src/IconCss.ts:42 | the style element's child is the sheet exactly when icon definitions and a non-empty source path are given and the sheet is not empty; otherwise it is `null` |
| `Themes.GetEditorTheme` | src/support/themes.ts:14-21 | a `dark` file extends `vs-dark`, an `hc` file `hc-black`, any other `vs`; the theme inherits and carries the file's rules unchanged |
| `Themes.OnlyKindAndRules` | src/support/themes.ts:14-21 | the name and colours play no part: files agreeing on kind and rules give the same theme |

## Left out

- Virtual-DOM construction is not modelled: element structure, CSS classes, aria attributes, row padding and the `top` pixel offset (src/TreePane.ts:271). The mouse-enter/leave toggling of scroll-bar visibility is left out too. None of these affect the state the model tracks, apart from the icon resolver described in the `TreePane.Render` line below.
- The `ScrollBar` widget, `IconResolver`, and the folder and file icon classes are left out, because their code is not part of this model. The icon URL a resolver gives is a function parameter of `IconCss`. The row's icon `class` is omitted.
- `getAbsolutePosition` and DOM heights are left out; pointer positions and the rows container's height are parameters.
- Floating point is not modelled, because row counts, positions and deltas are exact reals. Rounding in `clientHeight / 22` and in wheel deltas is not represented.
- The initially `undefined` fields (`_visibleRowCount`, `_size`, `_sliderSize`, `_dragPosition`) are not modelled: the pane state always holds numbers. The workbench's initially unset active index is `None`, and the model uses it.
- `preventDefault` calls are not modelled, except the wheel's, which is the result flag of `TreePaneScroll.Wheel`.
- The `onFileOpen` callback of the workbench and everything the workbench passes to the editor, runner and toolbar are left out. `Toolbar` is not part of this model; its tabs are `Workbench.TabItems`.
- Network and project loading are left out: `project.load`, `getProgram`, theme and icon loading, `monaco.editor.defineTheme` and console logging. The loaded project is the `project` parameter of `App`, and `project.includes` is taken as membership in its file names.
- The FileBar's generated element ids, the early return in its `render` (dead: it compares the active index with itself) and the reversal of its one-element child list are left out. The reversal is a no-op.
- `files.sort` sorting the caller's array in place is not modelled. The model returns the sorted copy.
- The comparator answers 1 for equal strings. That case is not modelled separately: equal strings are indistinguishable, so the sorted result is the unique ascending arrangement.
- The `for…in` enumeration order of `iconDefinitions` is a parameter: the key sequence.
- `PathTree.AddFilesContainsAll`: stated only when the root cannot be replaced half-way through the fold. The source drops the files added before a `.`-relative path that meets an id-less root (see `PathTree.DotPathDropsEarlierFiles`).
- `TreePane.Render`: assumes an icon resolver exists. The source creates one only when `icons` and `sourcePath` are both given (src/TreePane.ts:267-268), and `_renderChild` calls it for every row it builds (src/TreePane.ts:201). Without one, a render that builds any row throws after the cache has been rebuilt and before `_size` and `_sliderSize` are set. The model does not represent that exception.
- `PathTree.AddFilesPresent`: stated only when the root cannot be replaced: it has an id, or no file has a leading `.` segment. A `./b` folded into an id-less root that already holds `b` replaces the root with a new `.` folder.
- `PathTree.TreeRootHoldsFiles`: stated only for file lists without a leading `.` segment, for the same reason.
- `PathTree.AddFilesIdempotent`: stated only for a non-empty list under the same side condition as `PathTree.AddFilesContainsAll`. With an id-less root and `a`, `./b`, the first fold ends with a `.` root that lacks `a`, and a second fold adds it.
- `Strings.LexLess`: compares characters as Unicode scalar values, whereas JavaScript's `<` compares UTF-16 code units. The two orders agree unless a character above U+FFFF meets one in U+E000–U+FFFF, where JavaScript puts the former first (its surrogate is lower).

## Findings

| source | as written | input that shows it | evidently intended | confidence | as-written member | corrected member |
|---|---|---|---|---|---|---|
| src/Workbench.ts:155-158 | after closing tab `index`, an active index that is neither past the end nor the closed tab becomes `active - 1` (or 0 when it was 0), whichever side of the closed tab it is on; src/examples/index.ts:185-188 repeats the expression | open `a`, `b`, `c`, active 1 (`b`), close index 2: the new active index is 0 and the editor switches to `a`, although `b` is still open | an active tab before the closed one keeps its index, so the same file stays active | high (not executed) | `Tabs.CloseAsWritten` | `Tabs.Close` |
