/** The open-file list both owners of a tab strip keep (the workbench widget
    and the example application): opening a file, closing a tab and the
    active index that follows it, the expanded-folder toggle, and the tab
    descriptions built from the open files. */
module Tabs {
  import opened Optional
  import opened Strings
  import FileBar

  /** No value occurs twice. */
  predicate Distinct(s: seq<string>) {
    forall i, j :: 0 <= i < j < |s| ==> s[i] != s[j]
  }

  /** `s.indexOf(x)`: the first position of `x`, or -1. */
  function IndexOf(s: seq<string>, x: string): (i: int)
    ensures i == -1 <==> x !in s
    ensures i != -1 ==> 0 <= i < |s| && s[i] == x && x !in s[..i]
  {
    if s == [] then -1
    else if s[0] == x then 0
    else
      var j := IndexOf(s[1..], x);
      assert j != -1 ==> s[1..][..j] == s[1..j + 1];
      if j == -1 then -1 else j + 1
  }

  /** Where `s.splice(index, 1)` starts: negative indexes count from the end,
      and indexes past either end are pulled back to it. */
  function SpliceStart(n: nat, index: int): (k: nat)
    ensures k <= n
    ensures 0 <= index <= n ==> k == index
    ensures 0 <= n + index && index < 0 ==> k == n + index
  {
    if index < 0 then (if n + index < 0 then 0 else n + index)
    else if index > n then n else index
  }

  /** `s.splice(index, 1)`: the list without the element at the start
      position, or unchanged when that position is past the end. */
  function Splice(s: seq<string>, index: int): (r: seq<string>)
    ensures SpliceStart(|s|, index) < |s| ==> |r| == |s| - 1
    ensures SpliceStart(|s|, index) == |s| ==> r == s
    ensures 0 <= index < |s| ==> r == s[..index] + s[index + 1..]
    ensures -|s| <= index < 0 ==> r == s[..|s| + index] + s[|s| + index + 1..]
    ensures index < -|s| && s != [] ==> r == s[1..]
    ensures |s| <= index ==> r == s
    ensures multiset(r) <= multiset(s)
  {
    var k := SpliceStart(|s|, index);
    if k < |s| then
      assert s == s[..k] + [s[k]] + s[k + 1..];
      s[..k] + s[k + 1..]
    else s
  }

  /** Removing an element from a list without repeats leaves the others and
      nothing else. */
  lemma SpliceDistinct(s: seq<string>, index: int)
    requires Distinct(s) && 0 <= index < |s|
    ensures Distinct(Splice(s, index))
    ensures forall x :: x in Splice(s, index) <==> x in s && x != s[index]
  {
    var r := Splice(s, index);
    forall x | x in s && x != s[index]
      ensures x in r
    {
      var i :| 0 <= i < |s| && s[i] == x;
      if i < index {
        assert r[i] == x;
      } else {
        assert r[i - 1] == x;
      }
    }
  }

  // ---------------------------------------------------------------------
  // Opening a file

  /** `_onItemOpen` on an included file: activate its tab, opening a new one
      at the end when it has none. */
  function OpenFile(openFiles: seq<string>, id: string): (r: (seq<string>, int))
    ensures 0 <= r.1 < |r.0| && r.0[r.1] == id
    ensures id in openFiles ==> r.0 == openFiles && r.1 == IndexOf(openFiles, id)
    ensures id !in openFiles ==> r.0 == openFiles + [id] && r.1 == |openFiles|
    ensures Distinct(openFiles) ==> Distinct(r.0)
  {
    if id in openFiles then (openFiles, IndexOf(openFiles, id))
    else (openFiles + [id], |openFiles|)
  }

  /** Opening the same file again changes nothing. */
  lemma OpenTwice(openFiles: seq<string>, id: string)
    ensures OpenFile(OpenFile(openFiles, id).0, id) == OpenFile(openFiles, id)
  {
  }

  /** With distinct open files, the active index after an open is the only
      position of the file. */
  lemma OpenedAtItsOnlyPosition(openFiles: seq<string>, id: string)
    requires Distinct(openFiles)
    ensures forall i :: 0 <= i < |OpenFile(openFiles, id).0| && OpenFile(openFiles, id).0[i] == id ==>
      i == OpenFile(openFiles, id).1
  {
  }

  // ---------------------------------------------------------------------
  // Closing a tab

  /** The active index after closing tab `index`, as the handlers compute it
      from the old active index (`undefined` being `None`) and the new length:
      the last tab if the old index is now past the end, the same index if the
      active tab was closed, otherwise one less, or 0 when it was 0 or unset. */
  function CloseAsWritten(active: Option<int>, index: int, newLength: nat): (r: int)
    ensures active.Some? && active.value >= newLength ==> r == newLength - 1
    ensures active == Some(index) && index < newLength ==> r == index
    ensures active.Some? && active.value < newLength && active.value != index && active.value != 0 ==> r == active.value - 1
    ensures active.None? ==> r == 0
    ensures active == Some(0) && 0 < newLength && index != 0 ==> r == 0
  {
    if active.Some? && active.value >= newLength then newLength - 1
    else if active == Some(index) then index
    else if active.Some? && active.value != 0 then active.value - 1
    else 0
  }

  /** Closing a tab to the right of the active one moves the active index
      one to the left, onto a file that was not closed: with `a`, `b`, `c`
      open and `b` active, closing `c` activates `a`. */
  lemma CloseAsWrittenLosesActive()
    ensures var before := ["a", "b", "c"];
      var after := Splice(before, 2);
      && after == ["a", "b"]
      && CloseAsWritten(Some(1), 2, |after|) == 0
      && after[CloseAsWritten(Some(1), 2, |after|)] != before[1]
  {
    assert Splice(["a", "b", "c"], 2) == ["a", "b", "c"][..2];
  }

  /** The active index after closing tab `index`: an index past the closed
      tab moves left with its file, the closed tab's place passes to the tab
      that slides into it (or to the new last tab), and an index before it
      stays put. With no active index yet the first tab becomes active. */
  function Close(active: Option<int>, index: int, newLength: nat): (r: int)
    ensures active.Some? && active.value > index && active.value - 1 < newLength ==> r == active.value - 1
    ensures active.Some? && active.value < index && active.value < newLength ==> r == active.value
    ensures active == Some(index) ==> r == if index < newLength then index else newLength - 1
    ensures active.None? ==> r == 0
  {
    if active.Some? && active.value >= newLength then newLength - 1
    else if active == Some(index) then index
    else if active.Some? && active.value > index then active.value - 1
    else if active.Some? then active.value
    else 0
  }

  /** The two definitions differ only when the active tab lies strictly
      between the first tab and the closed one. */
  lemma CloseDiffers(active: int, index: int, newLength: nat)
    requires 0 <= active < newLength + 1 && 0 <= index < newLength + 1
    ensures Close(Some(active), index, newLength) != CloseAsWritten(Some(active), index, newLength)
      <==> 0 < active < index
  {
  }

  /** Closing any tab other than the active one keeps the same file active,
      and the active index stays a valid tab; closing the active tab
      activates a tab that was open before. */
  lemma CloseKeepsActiveFile(openFiles: seq<string>, active: int, index: int)
    requires 0 <= active < |openFiles| && 0 <= index < |openFiles|
    ensures var after := Splice(openFiles, index);
      var r := Close(Some(active), index, |after|);
      && (after == [] ==> r == -1)
      && (after != [] ==> 0 <= r < |after|)
      && (active != index ==> after[r] == openFiles[active])
      && (active == index && after != [] ==> after[r] in openFiles)
  {
    var after := Splice(openFiles, index);
    var r := Close(Some(active), index, |after|);
    if active != index {
      if active > index {
        assert after[active - 1] == openFiles[active];
      } else {
        assert after[active] == openFiles[active];
      }
    } else if after != [] {
      if index < |after| {
        assert after[index] == openFiles[index + 1];
      } else {
        assert after[|after| - 1] == openFiles[|after| - 1];
      }
    }
  }

  /** The as-written index is in range too, just not always on the same file. */
  lemma CloseAsWrittenInRange(openFiles: seq<string>, active: int, index: int)
    requires 0 <= active < |openFiles| && 0 <= index < |openFiles|
    ensures var n := |Splice(openFiles, index)|;
      var r := CloseAsWritten(Some(active), index, n);
      (n == 0 ==> r == -1) && (n > 0 ==> 0 <= r < n)
  {
  }

  // ---------------------------------------------------------------------
  // Expanding and collapsing folders

  /** `_onItemToggle`: remove the first occurrence of the id when present,
      append it otherwise. */
  function Toggle(expanded: seq<string>, id: string): (r: seq<string>)
    ensures id !in expanded ==> r == expanded + [id]
    ensures id in expanded ==> |r| == |expanded| - 1 && multiset(r) == multiset(expanded) - multiset{id}
  {
    if id in expanded then
      var i := IndexOf(expanded, id);
      assert expanded == expanded[..i] + [id] + expanded[i + 1..];
      Splice(expanded, i)
    else expanded + [id]
  }

  /** On a list without repeats a toggle flips the id's membership, leaves
      every other id alone and keeps the list free of repeats. */
  lemma ToggleFlips(expanded: seq<string>, id: string)
    requires Distinct(expanded)
    ensures id in Toggle(expanded, id) <==> id !in expanded
    ensures forall x :: x != id ==> (x in Toggle(expanded, id) <==> x in expanded)
    ensures Distinct(Toggle(expanded, id))
  {
    if id in expanded {
      SpliceDistinct(expanded, IndexOf(expanded, id));
    }
  }

  /** Toggling twice restores membership; starting from a collapsed folder it
      restores the list exactly. */
  lemma ToggleTwice(expanded: seq<string>, id: string)
    requires Distinct(expanded)
    ensures forall x :: x in Toggle(Toggle(expanded, id), id) <==> x in expanded
    ensures id !in expanded ==> Toggle(Toggle(expanded, id), id) == expanded
  {
    ToggleFlips(expanded, id);
    ToggleFlips(Toggle(expanded, id), id);
    if id !in expanded {
      var once := expanded + [id];
      assert IndexOf(once, id) == |expanded| by {
        assert once[..|expanded|] == expanded;
      }
      assert once[..|expanded|] == expanded;
    }
  }

  // ---------------------------------------------------------------------
  // Tab descriptions

  /** `_tabs` / `_getFileItems`: one closeable, enabled tab per open file,
      keyed by the path and labelled with its last path segment. */
  function FileItems(openFiles: seq<string>): (items: seq<FileBar.FileItem>)
    ensures |items| == |openFiles|
    ensures forall i :: 0 <= i < |items| ==> items[i].key == openFiles[i]
    ensures forall i :: 0 <= i < |items| ==> items[i].closeable && !items[i].disabled
    ensures forall i :: 0 <= i < |items| ==> items[i].caption == LastSegment(openFiles[i], PathSeparators)
  {
    seq(|openFiles|, i requires 0 <= i < |openFiles| =>
      FileBar.FileItem(openFiles[i], LastSegment(openFiles[i], PathSeparators), true, false))
  }

  /** Each tab's label is the file name after its last separator, and has no
      separator in it. */
  lemma TabLabels(openFiles: seq<string>, i: int)
    requires 0 <= i < |openFiles|
    ensures var f := openFiles[i];
      var l := FileItems(openFiles)[i].caption;
      && |l| <= |f| && f[|f| - |l|..] == l
      && (|l| < |f| ==> f[|f| - |l| - 1] in PathSeparators)
      && (forall j :: 0 <= j < |l| ==> l[j] !in PathSeparators)
  {
    LastSegmentSuffix(openFiles[i], PathSeparators);
  }

  /** The tab strip built from open files always has an enabled tab to
      select unless nothing is open. */
  lemma TabsSelectable(openFiles: seq<string>)
    ensures FileBar.AllDisabled(FileItems(openFiles)) <==> openFiles == []
  {
    if openFiles != [] {
      assert !FileItems(openFiles)[0].disabled;
    }
  }
}
