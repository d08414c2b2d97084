/** The incremental path-tree builder: `addFile` and the fold over the sorted
    file list that produces the tree pane's root (`_getTreeRoot` in the
    workbench, `_getTreeItems` in the example application). The source
    mutates the tree in place; here every step returns the new tree. */
module PathTree {
  import opened Optional
  import opened Strings
  import opened Tree

  /** Index of the first child labelled `name` (what `find` returns), or
      `|kids|` when there is none. */
  function FindLabel(kids: seq<TreeItem>, name: string): (k: nat)
    ensures k <= |kids|
    ensures k < |kids| ==> kids[k].name == name
    ensures forall j :: 0 <= j < k ==> kids[j].name != name
  {
    if kids == [] then 0
    else if kids[0].name == name then 0
    else 1 + FindLabel(kids[1..], name)
  }

  /** The node with the same id, label and title. */
  predicate SameHead(a: TreeItem, b: TreeItem) {
    a.id == b.id && a.name == b.name && a.title == b.title
  }

  /** The `while (parts.length)` loop of `addFile`, started at `parent`:
      for each segment, reuse the first child with that label or append a
      new file node whose id and title are the segments so far joined by
      `delim`; a node that is passed through becomes a folder; at the end,
      `markFolder` (the path ended in a separator) turns the node reached
      into a folder. */
  function AddPath(parent: TreeItem, segs: seq<string>, idParts: seq<string>, delim: char, markFolder: bool): (r: TreeItem)
    ensures SameHead(r, parent)
    ensures segs != [] || markFolder || parent.Folder? ==> r.Folder?
    ensures segs == [] && !markFolder ==> r == parent
    ensures Labels(Kids(parent)) <= Labels(Kids(r))
    ensures |Kids(r)| <= |Kids(parent)| + 1
    decreases |segs|
  {
    if segs == [] then
      if markFolder && parent.Leaf? then Folder(parent.id, parent.name, parent.title, []) else parent
    else
      var kids := Kids(parent);
      var seg := segs[0];
      var path := idParts + [seg];
      var k := FindLabel(kids, seg);
      var kids' :=
        if k < |kids| then kids[k := AddPath(kids[k], segs[1..], path, delim, markFolder)]
        else kids + [AddPath(Leaf(Join(path, delim), seg, Join(path, delim)), segs[1..], path, delim, markFolder)];
      assert Labels(kids) <= Labels(kids');
      Folder(parent.id, parent.name, parent.title, kids')
  }

  /** `/[\/\\]$/.test(filename)`. */
  predicate EndsWithSeparator(f: string) {
    |f| > 0 && f[|f| - 1] in PathSeparators
  }

  /** The first segment of the path is `.`. */
  predicate LeadingDot(f: string) {
    Split(f, PathSeparators)[0] == "."
  }

  /** The separator ids are joined with: `/` when splitting on `/` alone
      gives as many parts as splitting on both separators, `\` otherwise. */
  function Delimiter(f: string): (d: char)
    ensures d == '/' <==> '\\' !in f
    ensures d in PathSeparators
  {
    SlashOnlyCount(f);
    if |Split(f, {'/'})| == |Split(f, PathSeparators)| then '/' else '\\'
  }

  /** The segments the loop walks: a leading `.` is taken off into the id prefix. */
  function Segments(f: string): seq<string> {
    var parts := Split(f, PathSeparators);
    if parts[0] == "." then parts[1..] else parts
  }

  function IdPrefix(f: string): seq<string> {
    if LeadingDot(f) then ["."] else []
  }

  /** The created root `addFile` switches to for a `.`-relative path. */
  const DotRoot: TreeItem := Folder(".", ".", ".", [])

  /** `addFile(root, filename)`. */
  function AddFile(root: TreeItem, f: string): (r: TreeItem)
    ensures r.id == (if LeadingDot(f) && root.id == "" then "." else root.id)
    ensures Segments(f) != [] ==> r.Folder?
  {
    var start := if LeadingDot(f) && root.id == "" then DotRoot else root;
    AddPath(start, Segments(f), IdPrefix(f), Delimiter(f), EndsWithSeparator(f))
  }

  /** The example application's `addFile`, which also accepts an absent root
      and starts from an empty folder then. */
  function AddFileOrCreate(root: Option<TreeItem>, f: string): (r: TreeItem)
    ensures root.None? ==> r.Folder? && r == AddFile(Folder("", "", "", []), f)
    ensures root.Some? ==> r == AddFile(root.value, f)
  {
    AddFile(root.GetOr(Folder("", "", "", [])), f)
  }

  /** `files.reduce(addFile, root)`. */
  function AddFiles(root: TreeItem, files: seq<string>): TreeItem
    decreases |files|
  {
    if files == [] then root else AddFiles(AddFile(root, files[0]), files[1..])
  }

  /** The childless root both applications start the fold from. */
  const EmptyRoot: TreeItem := Leaf("", "", "")

  /** The fold takes the first file, then folds the rest. */
  lemma AddFilesStep(root: TreeItem, files: seq<string>)
    requires files != []
    ensures AddFiles(root, files) == AddFiles(AddFile(root, files[0]), files[1..])
  {
  }

  /** `_getTreeRoot`: no tree without a file list; otherwise the sorted files
      folded into the empty root. `_getTreeItems` is the `Some` case. */
  function TreeRoot(files: Option<seq<string>>): (r: Option<TreeItem>)
    ensures r.Some? <==> files.Some?
  {
    match files
    case None => None
    case Some(fs) => Some(AddFiles(EmptyRoot, SortAscending(fs)))
  }

  // ---------------------------------------------------------------------
  // What the tree holds after a path has been added

  /** Following `segs` from `n` by first label match reaches a node, every
      node on the way is a folder, and when `markFolder` holds the node
      reached is a folder too. */
  predicate Contains(n: TreeItem, segs: seq<string>, markFolder: bool)
    decreases |segs|
  {
    if segs == [] then markFolder ==> n.Folder?
    else
      && n.Folder?
      && FindLabel(n.children, segs[0]) < |n.children|
      && Contains(n.children[FindLabel(n.children, segs[0])], segs[1..], markFolder)
  }

  /** After `AddPath` the path is there. */
  lemma {:induction false} AddPathContains(p: TreeItem, segs: seq<string>, ids: seq<string>, d: char, m: bool)
    ensures Contains(AddPath(p, segs, ids, d, m), segs, m)
    decreases |segs|
  {
    if segs != [] {
      var kids := Kids(p);
      var path := ids + [segs[0]];
      var k := FindLabel(kids, segs[0]);
      var r := AddPath(p, segs, ids, d, m);
      if k < |kids| {
        AddPathContains(kids[k], segs[1..], path, d, m);
        assert FindLabel(r.children, segs[0]) == k by {
          FindLabelStable(kids, r.children, segs[0]);
        }
      } else {
        var created := Leaf(Join(path, d), segs[0], Join(path, d));
        AddPathContains(created, segs[1..], path, d, m);
        assert FindLabel(r.children, segs[0]) == |kids| by {
          FindLabelAppended(kids, r.children[|kids|], segs[0]);
          assert r.children == kids + [r.children[|kids|]];
        }
      }
    }
  }

  /** A label found among siblings is found at the same place once more
      siblings are appended or a sibling is replaced by one with the same label. */
  lemma {:induction false} FindLabelStable(a: seq<TreeItem>, b: seq<TreeItem>, l: string)
    requires Labels(a) <= Labels(b)
    requires FindLabel(a, l) < |a|
    ensures FindLabel(b, l) == FindLabel(a, l)
    decreases |a|
  {
    assert Labels(a)[0] == Labels(b)[0];
    if a[0].name != l {
      assert Labels(a[1..]) == Labels(a)[1..];
      assert Labels(b[1..]) == Labels(b)[1..];
      FindLabelStable(a[1..], b[1..], l);
    }
  }

  lemma FindLabelAppended(a: seq<TreeItem>, x: TreeItem, l: string)
    requires FindLabel(a, l) == |a|
    requires x.name == l
    ensures FindLabel(a + [x], l) == |a|
  {
    assert forall j :: 0 <= j < |a| ==> (a + [x])[j] == a[j];
    assert (a + [x])[|a|] == x;
  }

  /** Walking a path that is already there changes nothing. */
  lemma {:induction false} AddPathPresent(p: TreeItem, segs: seq<string>, ids: seq<string>, d: char, m: bool)
    requires Contains(p, segs, m)
    ensures AddPath(p, segs, ids, d, m) == p
    decreases |segs|
  {
    if segs != [] {
      var k := FindLabel(p.children, segs[0]);
      AddPathPresent(p.children[k], segs[1..], ids + [segs[0]], d, m);
      assert p.children[k := p.children[k]] == p.children;
    }
  }

  /** Adding one path keeps every path that was already there. */
  lemma {:induction false} AddPathKeeps(p: TreeItem, old_: seq<string>, om: bool, segs: seq<string>, ids: seq<string>, d: char, m: bool)
    requires Contains(p, old_, om)
    ensures Contains(AddPath(p, segs, ids, d, m), old_, om)
    decreases |old_|
  {
    var r := AddPath(p, segs, ids, d, m);
    if old_ != [] && segs != [] {
      var kids := p.children;
      var k1 := FindLabel(kids, old_[0]);
      var k2 := FindLabel(kids, segs[0]);
      FindLabelStable(kids, r.children, old_[0]);
      if k2 < |kids| && k1 == k2 {
        AddPathKeeps(kids[k1], old_[1..], om, segs[1..], ids + [segs[0]], d, m);
      } else {
        assert r.children[k1] == kids[k1];
      }
    } else if old_ != [] {
      assert r == p;
    }
  }

  /** `addFile` puts the file's path into the tree. */
  lemma AddFileContains(root: TreeItem, f: string)
    ensures Contains(AddFile(root, f), Segments(f), EndsWithSeparator(f))
  {
    var start := if LeadingDot(f) && root.id == "" then DotRoot else root;
    AddPathContains(start, Segments(f), IdPrefix(f), Delimiter(f), EndsWithSeparator(f));
  }

  /** Adding the same file twice gives the same tree as adding it once. */
  lemma AddFileIdempotent(root: TreeItem, f: string)
    ensures AddFile(AddFile(root, f), f) == AddFile(root, f)
  {
    var once := AddFile(root, f);
    AddFileContains(root, f);
    assert !(LeadingDot(f) && once.id == "");
    AddPathPresent(once, Segments(f), IdPrefix(f), Delimiter(f), EndsWithSeparator(f));
  }

  /** Unless it replaces the root, `addFile` keeps every path already there. */
  lemma AddFileKeeps(root: TreeItem, g: string, f: string)
    requires Contains(root, Segments(g), EndsWithSeparator(g))
    requires !(LeadingDot(f) && root.id == "")
    ensures Contains(AddFile(root, f), Segments(g), EndsWithSeparator(g))
  {
    AddPathKeeps(root, Segments(g), EndsWithSeparator(g), Segments(f), IdPrefix(f), Delimiter(f), EndsWithSeparator(f));
  }

  /** Every file of `gs` has its path in `t`. */
  predicate AllContained(t: TreeItem, gs: seq<string>) {
    forall g :: g in gs ==> Contains(t, Segments(g), EndsWithSeparator(g))
  }

  /** No file of `fs` starts with a `.` segment. */
  predicate NoLeadingDot(fs: seq<string>) {
    forall f :: f in fs ==> !LeadingDot(f)
  }

  /** Folding files into a tree that cannot be replaced by the `.` root keeps
      a path that was already there. */
  lemma {:induction false} AddFilesKeepOne(t: TreeItem, files: seq<string>, g: string)
    requires t.id != "" || NoLeadingDot(files)
    requires Contains(t, Segments(g), EndsWithSeparator(g))
    ensures Contains(AddFiles(t, files), Segments(g), EndsWithSeparator(g))
    decreases |files|
  {
    if files != [] {
      var f := files[0];
      assert !(LeadingDot(f) && t.id == "") by {
        assert f in files;
      }
      AddFileKeeps(t, g, f);
      var t' := AddFile(t, f);
      NoLeadingDotTail(t, files);
      AddFilesKeepOne(t', files[1..], g);
    }
  }

  /** ... and ends up holding each of the files folded in. */
  lemma {:induction false} AddFilesGains(t: TreeItem, files: seq<string>, i: nat)
    requires t.id != "" || NoLeadingDot(files)
    requires i < |files|
    ensures Contains(AddFiles(t, files), Segments(files[i]), EndsWithSeparator(files[i]))
    decreases |files|
  {
    var f := files[0];
    var t' := AddFile(t, f);
    var rest := files[1..];
    assert AddFiles(t, files) == AddFiles(t', rest);
    assert t'.id != "" || NoLeadingDot(rest) by {
      NoLeadingDotTail(t, files);
    }
    if i == 0 {
      AddFileContains(t, f);
      AddFilesKeepOne(t', rest, f);
    } else {
      assert rest[i - 1] == files[i];
      AddFilesGains(t', rest, i - 1);
    }
  }

  /** The fold's side condition carries over from one file to the next. */
  lemma NoLeadingDotTail(t: TreeItem, files: seq<string>)
    requires files != []
    requires t.id != "" || NoLeadingDot(files)
    ensures AddFile(t, files[0]).id != "" || NoLeadingDot(files[1..])
  {
    assert !(LeadingDot(files[0]) && t.id == "") by {
      assert files[0] in files;
    }
    assert forall h :: h in files[1..] ==> h in files;
  }

  /** Folding files into a tree that cannot be replaced by the `.` root keeps
      what was there and adds every file. */
  lemma AddFilesKeep(t: TreeItem, files: seq<string>, done: seq<string>)
    requires t.id != "" || NoLeadingDot(files)
    requires AllContained(t, done)
    ensures AllContained(AddFiles(t, files), done + files)
  {
    forall g | g in done + files
      ensures Contains(AddFiles(t, files), Segments(g), EndsWithSeparator(g))
    {
      if g in done {
        AddFilesKeepOne(t, files, g);
      } else {
        var i :| 0 <= i < |files| && files[i] == g;
        AddFilesGains(t, files, i);
      }
    }
  }

  /** After the fold every file's path is in the tree, as long as the root
      is not switched to the `.` root half-way: the root already has an id,
      or the first file is the one with the leading `.`, or none has one. */
  lemma AddFilesContainsAll(root: TreeItem, files: seq<string>)
    requires files != []
    requires root.id != "" || LeadingDot(files[0]) || NoLeadingDot(files)
    ensures AllContained(AddFiles(root, files), files)
  {
    forall g | g in files
      ensures Contains(AddFiles(root, files), Segments(g), EndsWithSeparator(g))
    {
      var i :| 0 <= i < |files| && files[i] == g;
      AddFilesHolds(root, files, i);
    }
  }

  /** The `i`-th file is in the tree the fold builds, under the same side
      condition. */
  lemma AddFilesHolds(root: TreeItem, files: seq<string>, i: nat)
    requires i < |files|
    requires root.id != "" || LeadingDot(files[0]) || NoLeadingDot(files)
    ensures Contains(AddFiles(root, files), Segments(files[i]), EndsWithSeparator(files[i]))
  {
    var t := AddFile(root, files[0]);
    var rest := files[1..];
    assert t.id != "" || NoLeadingDot(rest) by {
      assert forall f :: f in rest ==> f in files;
    }
    var g := files[i];
    assert Contains(AddFiles(t, rest), Segments(g), EndsWithSeparator(g)) by {
      if i == 0 {
        AddFileContains(root, g);
        AddFilesKeepOne(t, rest, g);
      } else {
        assert rest[i - 1] == g;
        AddFilesGains(t, rest, i - 1);
      }
    }
    AddFilesStep(root, files);
  }

  lemma {:induction false} AddFilesPresent(t: TreeItem, files: seq<string>)
    requires t.id != "" || NoLeadingDot(files)
    requires AllContained(t, files)
    ensures AddFiles(t, files) == t
    decreases |files|
  {
    if files != [] {
      AddPathPresent(t, Segments(files[0]), IdPrefix(files[0]), Delimiter(files[0]), EndsWithSeparator(files[0]));
      assert forall f :: f in files[1..] ==> f in files;
      AddFilesPresent(t, files[1..]);
    }
  }

  lemma AddFilesIdempotent(root: TreeItem, files: seq<string>)
    requires files != []
    requires root.id != "" || LeadingDot(files[0]) || NoLeadingDot(files)
    ensures AddFiles(AddFiles(root, files), files) == AddFiles(root, files)
  {
    var t := AddFiles(root, files);
    AddFilesContainsAll(root, files);
    AddFilesRootId(root, files);
    AddFilesPresent(t, files);
  }

  /** The fold's root id is the starting one, or `.` once a `.`-relative file
      replaced an id-less root. */
  lemma {:induction false} AddFilesRootId(root: TreeItem, files: seq<string>)
    ensures AddFiles(root, files).id == root.id || AddFiles(root, files).id == "."
    ensures files != [] && LeadingDot(files[0]) ==> AddFiles(root, files).id != ""
    ensures root.id != "" ==> AddFiles(root, files).id != ""
    decreases |files|
  {
    if files != [] {
      AddFilesRootId(AddFile(root, files[0]), files[1..]);
    }
  }

  // ---------------------------------------------------------------------
  // Sibling labels stay unique

  /** `addFile` never creates a second child with a label already present. */
  lemma {:induction false} AddPathUnique(p: TreeItem, segs: seq<string>, ids: seq<string>, d: char, m: bool)
    requires UniqueLabels(p)
    ensures UniqueLabels(AddPath(p, segs, ids, d, m))
    decreases |segs|
  {
    if segs != [] {
      var kids := Kids(p);
      var path := ids + [segs[0]];
      var k := FindLabel(kids, segs[0]);
      var r := AddPath(p, segs, ids, d, m);
      if k < |kids| {
        AddPathUnique(kids[k], segs[1..], path, d, m);
        assert forall c :: c in r.children ==> c in kids || c == r.children[k];
      } else {
        var created := Leaf(Join(path, d), segs[0], Join(path, d));
        AddPathUnique(created, segs[1..], path, d, m);
        assert forall c :: c in r.children ==> c in kids || c == r.children[|kids|];
      }
    }
  }

  lemma AddFileUnique(root: TreeItem, f: string)
    requires UniqueLabels(root)
    ensures UniqueLabels(AddFile(root, f))
  {
    var start := if LeadingDot(f) && root.id == "" then DotRoot else root;
    AddPathUnique(start, Segments(f), IdPrefix(f), Delimiter(f), EndsWithSeparator(f));
  }

  /** The built tree never has two same-label siblings. */
  lemma {:induction false} AddFilesUnique(root: TreeItem, files: seq<string>)
    requires UniqueLabels(root)
    ensures UniqueLabels(AddFiles(root, files))
    decreases |files|
  {
    if files != [] {
      AddFileUnique(root, files[0]);
      AddFilesUnique(AddFile(root, files[0]), files[1..]);
    }
  }

  // ---------------------------------------------------------------------
  // Ids and titles are the joined path

  /** Every node below `n` has as id and title the segments leading to it,
      starting from `prefix`, joined by `d`, and its own segment as label. */
  predicate NamedUnder(n: TreeItem, prefix: seq<string>, d: char) {
    match n
    case Leaf(_, _, _) => true
    case Folder(_, _, _, ks) =>
      forall c :: c in ks ==>
        && c.id == Join(prefix + [c.name], d)
        && c.title == c.id
        && NamedUnder(c, prefix + [c.name], d)
  }

  lemma {:induction false} AddPathNamed(p: TreeItem, segs: seq<string>, ids: seq<string>, d: char, m: bool)
    requires NamedUnder(p, ids, d)
    ensures NamedUnder(AddPath(p, segs, ids, d, m), ids, d)
    decreases |segs|
  {
    if segs != [] {
      var kids := Kids(p);
      var path := ids + [segs[0]];
      var k := FindLabel(kids, segs[0]);
      var r := AddPath(p, segs, ids, d, m);
      if k < |kids| {
        AddPathNamed(kids[k], segs[1..], path, d, m);
        assert forall c :: c in r.children ==> c in kids || c == r.children[k];
      } else {
        var created := Leaf(Join(path, d), segs[0], Join(path, d));
        AddPathNamed(created, segs[1..], path, d, m);
        assert forall c :: c in r.children ==> c in kids || c == r.children[|kids|];
      }
    }
  }

  /** A file without a leading `.` keeps a tree named with its own
      separator named that way. */
  lemma AddFileNamed(root: TreeItem, f: string, d: char)
    requires !LeadingDot(f) && Delimiter(f) == d
    requires NamedUnder(root, [], d)
    ensures NamedUnder(AddFile(root, f), [], d)
  {
    AddPathNamed(root, Segments(f), IdPrefix(f), d, EndsWithSeparator(f));
  }

  /** Building from `/`-separated paths without a leading `.`: every node's
      id and title are its path from the root joined by `/`. */
  lemma {:induction false} AddFilesNamed(root: TreeItem, files: seq<string>)
    requires forall f :: f in files ==> !LeadingDot(f) && '\\' !in f
    requires NamedUnder(root, [], '/')
    ensures NamedUnder(AddFiles(root, files), [], '/')
    decreases |files|
  {
    if files != [] {
      AddFileNamed(root, files[0], '/');
      assert forall f :: f in files[1..] ==> f in files;
      AddFilesNamed(AddFile(root, files[0]), files[1..]);
    }
  }

  // ---------------------------------------------------------------------
  // The tree the panes are given

  /** The tree does not depend on the order the file list arrives in. */
  lemma TreeRootOrderFree(fs: seq<string>, gs: seq<string>)
    requires multiset(fs) == multiset(gs)
    ensures TreeRoot(Some(fs)) == TreeRoot(Some(gs))
  {
    AscendingUnique(SortAscending(fs), SortAscending(gs));
  }

  /** Built from a list of paths none of which starts with a `.` segment,
      the tree holds every path, and no folder has two children with the
      same label. */
  lemma TreeRootHoldsFiles(fs: seq<string>)
    requires fs != [] && NoLeadingDot(fs)
    ensures AllContained(TreeRoot(Some(fs)).value, fs)
    ensures UniqueLabels(TreeRoot(Some(fs)).value)
  {
    var sorted := SortAscending(fs);
    assert forall f :: f in sorted <==> f in fs by {
      forall f ensures f in sorted <==> f in fs {
        assert f in sorted <==> f in multiset(sorted);
        assert f in fs <==> f in multiset(fs);
      }
    }
    assert sorted != [] by {
      assert fs[0] in fs;
    }
    AddFilesContainsAll(EmptyRoot, sorted);
    AddFilesUnique(EmptyRoot, sorted);
  }

  // ---------------------------------------------------------------------
  // A worked example

  /** `["d.ts", "a/c.ts", "a/b.ts"]` becomes a root holding folder `a`
      (with `b.ts` and `c.ts`, in that order) followed by file `d.ts`. */
  lemma ExampleTree()
    ensures TreeRoot(Some(["d.ts", "a/c.ts", "a/b.ts"])) == Some(
      Folder("", "", "", [
        Folder("a", "a", "a", [Leaf("a/b.ts", "b.ts", "a/b.ts"), Leaf("a/c.ts", "c.ts", "a/c.ts")]),
        Leaf("d.ts", "d.ts", "d.ts")]))
  {
    ExampleSorted();
    var b := Leaf("a/b.ts", "b.ts", "a/b.ts");
    var c := Leaf("a/c.ts", "c.ts", "a/c.ts");
    var t1 := Folder("", "", "", [Folder("a", "a", "a", [b])]);
    var t2 := Folder("", "", "", [Folder("a", "a", "a", [b, c])]);
    ExampleFirst();
    ExampleSecond();
    ExampleThird();
    assert AddFiles(EmptyRoot, ["a/b.ts", "a/c.ts", "d.ts"]) == AddFiles(t1, ["a/c.ts", "d.ts"]);
  }

  lemma ExampleSorted()
    ensures SortAscending(["d.ts", "a/c.ts", "a/b.ts"]) == ["a/b.ts", "a/c.ts", "d.ts"]
  {
    var sorted := ["a/b.ts", "a/c.ts", "d.ts"];
    assert !LexLess("a/c.ts", "a/b.ts");
    assert !LexLess("d.ts", "a/b.ts") && !LexLess("d.ts", "a/c.ts");
    assert Ascending(sorted);
    assert multiset(sorted) == multiset(["d.ts", "a/c.ts", "a/b.ts"]);
    AscendingUnique(SortAscending(["d.ts", "a/c.ts", "a/b.ts"]), sorted);
  }

  /** `addFile` of a `/`-separated path without a leading `.` or trailing
      separator walks its segments from the root. */
  lemma PlainAddFile(root: TreeItem, f: string, parts: seq<string>)
    requires parts == Split(f, PathSeparators) && parts[0] != "."
    requires '\\' !in f
    requires |f| > 0 && f[|f| - 1] !in PathSeparators
    ensures AddFile(root, f) == AddPath(root, parts, [], '/', false)
  {
  }

  /** One step of the walk when no child carries the segment: a new node is
      appended. */
  lemma AddPathNew(parent: TreeItem, segs: seq<string>, ids: seq<string>, d: char, m: bool)
    requires segs != [] && FindLabel(Kids(parent), segs[0]) == |Kids(parent)|
    ensures var path := ids + [segs[0]];
      AddPath(parent, segs, ids, d, m)
      == Folder(parent.id, parent.name, parent.title,
                Kids(parent) + [AddPath(Leaf(Join(path, d), segs[0], Join(path, d)), segs[1..], path, d, m)])
  {
  }

  /** One step of the walk when child `k` carries the segment: the walk
      continues inside it. */
  lemma AddPathFound(parent: TreeItem, segs: seq<string>, ids: seq<string>, d: char, m: bool, k: nat)
    requires segs != [] && k == FindLabel(Kids(parent), segs[0]) && k < |Kids(parent)|
    ensures AddPath(parent, segs, ids, d, m)
      == Folder(parent.id, parent.name, parent.title,
                Kids(parent)[k := AddPath(Kids(parent)[k], segs[1..], ids + [segs[0]], d, m)])
  {
  }

  /** Adding a plain path `x/y` walks the segments `x` and `y` from the root. */
  lemma PlainTwoSegments(root: TreeItem, x: string, y: string)
    requires x != "" && x != "." && y != ""
    requires '/' !in x && '\\' !in x && '/' !in y && '\\' !in y
    ensures AddFile(root, x + "/" + y) == AddPath(root, [x, y], [], '/', false)
  {
    var f := x + "/" + y;
    assert Join([x, y], '/') == f;
    assert forall i, j :: 0 <= i < 2 && 0 <= j < |[x, y][i]| ==> [x, y][i][j] !in PathSeparators by {
      forall i, j | 0 <= i < 2 && 0 <= j < |[x, y][i]|
        ensures [x, y][i][j] !in PathSeparators
      {
        assert [x, y][i][j] in [x, y][i];
      }
    }
    SplitJoin([x, y], '/', PathSeparators);
    assert '\\' !in f by {
      assert forall i :: 0 <= i < |f| ==> f[i] == (if i < |x| then x[i] else if i == |x| then '/' else y[i - |x| - 1]);
    }
    assert f[|f| - 1] == y[|y| - 1];
    PlainAddFile(root, f, [x, y]);
  }

  /** A plain path `x/y` added to the empty root becomes folder `x` holding file `y`. */
  lemma TwoSegmentsFromEmpty(x: string, y: string)
    requires x != "" && x != "." && y != ""
    requires '/' !in x && '\\' !in x && '/' !in y && '\\' !in y
    ensures AddFile(EmptyRoot, x + "/" + y)
         == Folder("", "", "", [Folder(x, x, x, [Leaf(x + "/" + y, y, x + "/" + y)])])
  {
    var f := x + "/" + y;
    var leaf := Leaf(f, y, f);
    var inner := AddPath(Leaf(x, x, x), [y], [x], '/', false);
    assert inner == Folder(x, x, x, [leaf]) by {
      AddPathNew(Leaf(x, x, x), [y], [x], '/', false);
      assert Join([x, y], '/') == f;
      assert AddPath(leaf, [], [x, y], '/', false) == leaf;
    }
    assert AddPath(EmptyRoot, [x, y], [], '/', false) == Folder("", "", "", [inner]) by {
      AddPathNew(EmptyRoot, [x, y], [], '/', false);
      assert Join([x], '/') == x;
      assert [x, y][1..] == [y];
    }
    PlainTwoSegments(EmptyRoot, x, y);
  }

  lemma ExampleFirst()
    ensures AddFile(EmptyRoot, "a/b.ts") == Folder("", "", "", [Folder("a", "a", "a", [Leaf("a/b.ts", "b.ts", "a/b.ts")])])
  {
    assert "a/b.ts" == "a" + "/" + "b.ts";
    TwoSegmentsFromEmpty("a", "b.ts");
  }

  lemma ExampleSecond()
    ensures AddFile(Folder("", "", "", [Folder("a", "a", "a", [Leaf("a/b.ts", "b.ts", "a/b.ts")])]), "a/c.ts")
         == Folder("", "", "", [Folder("a", "a", "a", [Leaf("a/b.ts", "b.ts", "a/b.ts"), Leaf("a/c.ts", "c.ts", "a/c.ts")])])
  {
    var b := Leaf("a/b.ts", "b.ts", "a/b.ts");
    var c := Leaf("a/c.ts", "c.ts", "a/c.ts");
    var a1 := Folder("a", "a", "a", [b]);
    var a2 := Folder("a", "a", "a", [b, c]);
    var root := Folder("", "", "", [a1]);
    assert AddPath(root, ["a", "c.ts"], [], '/', false) == Folder("", "", "", [a2]) by {
      assert FindLabel([a1], "a") == 0;
      AddPathFound(root, ["a", "c.ts"], [], '/', false, 0);
      assert ["a", "c.ts"][1..] == ["c.ts"];
      ExampleSecondInner();
      assert [a1][0 := a2] == [a2];
    }
    assert "a/c.ts" == "a" + "/" + "c.ts";
    PlainTwoSegments(root, "a", "c.ts");
  }

  lemma ExampleSecondInner()
    ensures AddPath(Folder("a", "a", "a", [Leaf("a/b.ts", "b.ts", "a/b.ts")]), ["c.ts"], ["a"], '/', false)
         == Folder("a", "a", "a", [Leaf("a/b.ts", "b.ts", "a/b.ts"), Leaf("a/c.ts", "c.ts", "a/c.ts")])
  {
    var b := Leaf("a/b.ts", "b.ts", "a/b.ts");
    var c := Leaf("a/c.ts", "c.ts", "a/c.ts");
    assert Join(["a", "c.ts"], '/') == "a/c.ts";
    assert FindLabel([b], "c.ts") == 1;
    assert AddPath(c, [], ["a", "c.ts"], '/', false) == c;
  }

  /** A plain one-segment path whose label the root does not have yet is
      appended to the root as a file. */
  lemma OneSegmentNew(root: TreeItem, x: string)
    requires x != "" && x != "." && '/' !in x && '\\' !in x
    requires FindLabel(Kids(root), x) == |Kids(root)|
    ensures AddFile(root, x) == Folder(root.id, root.name, root.title, Kids(root) + [Leaf(x, x, x)])
  {
    SplitFree(x, PathSeparators);
    assert Segments(x) == [x] && IdPrefix(x) == [];
    assert x[|x| - 1] in x;
    assert Delimiter(x) == '/';
    AddPathNew(root, [x], [], '/', false);
    assert Join([x], '/') == x;
    assert AddPath(Leaf(x, x, x), [], [x], '/', false) == Leaf(x, x, x);
  }

  lemma ExampleThird()
    ensures AddFile(Folder("", "", "", [Folder("a", "a", "a", [Leaf("a/b.ts", "b.ts", "a/b.ts"), Leaf("a/c.ts", "c.ts", "a/c.ts")])]), "d.ts")
         == Folder("", "", "", [
              Folder("a", "a", "a", [Leaf("a/b.ts", "b.ts", "a/b.ts"), Leaf("a/c.ts", "c.ts", "a/c.ts")]),
              Leaf("d.ts", "d.ts", "d.ts")])
  {
    var a := Folder("a", "a", "a", [Leaf("a/b.ts", "b.ts", "a/b.ts"), Leaf("a/c.ts", "c.ts", "a/c.ts")]);
    assert FindLabel([a], "d.ts") == 1;
    OneSegmentNew(Folder("", "", "", [a]), "d.ts");
  }

  /** Any path with a leading `.` segment added to an id-less root builds the
      same tree as when added to the bare `.` root: the old root's contents
      play no part. */
  lemma DotPathIgnoresRoot(t: TreeItem, f: string)
    requires LeadingDot(f) && t.id == ""
    ensures AddFile(t, f) == AddFile(DotRoot, f)
  {
  }

  /** A `.`-relative path added to a root without an id replaces that root
      with the `.` folder, whatever the root held. */
  lemma DotPathReplacesRoot(t: TreeItem)
    requires t.id == ""
    ensures AddFile(t, "./b") == Folder(".", ".", ".", [Leaf("./b", "b", "./b")])
  {
    assert Join([".", "b"], '/') == "./b";
    SplitJoin([".", "b"], '/', PathSeparators);
    assert forall i :: 0 <= i < 3 ==> "./b"[i] != '\\';
    assert Segments("./b") == ["b"] && IdPrefix("./b") == ["."];
    var leaf := Leaf("./b", "b", "./b");
    assert AddPath(leaf, [], [".", "b"], '/', false) == leaf;
  }

  /** So a file sorted before a `.`-relative one is dropped from the tree:
      from `./b` and `../a` only `./b` remains. */
  lemma DotPathDropsEarlierFiles()
    ensures TreeRoot(Some(["./b", "../a"])) == Some(Folder(".", ".", ".", [Leaf("./b", "b", "./b")]))
  {
    SortsParentFirst();
    ParentPathKeepsIdLess();
    var t := AddFile(EmptyRoot, "../a");
    assert AddFiles(EmptyRoot, ["../a", "./b"]) == AddFiles(t, ["./b"]);
    DotPathReplacesRoot(t);
  }

  /** `../a` sorts before `./b`. */
  lemma SortsParentFirst()
    ensures SortAscending(["./b", "../a"]) == ["../a", "./b"]
  {
    var sorted := ["../a", "./b"];
    assert LexLess("../a", "./b");
    assert Ascending(sorted);
    assert multiset(sorted) == multiset(["./b", "../a"]);
    AscendingUnique(SortAscending(["./b", "../a"]), sorted);
  }

  /** `../a` has no leading `.` segment, so the empty root keeps its empty id. */
  lemma ParentPathKeepsIdLess()
    ensures AddFile(EmptyRoot, "../a").id == ""
  {
    assert Join(["..", "a"], '/') == "../a";
    SplitJoin(["..", "a"], '/', PathSeparators);
    assert !LeadingDot("../a");
  }
}
