/** The tab strip (`FileBar`): which tab a selection request lands on,
    skipping disabled tabs with wrap-around, the keyboard navigation built
    on it, and the close request. The bar keeps no state of its own: every
    operation yields at most one request to its owner. */
module FileBar {
  import opened Optional

  /** One tab. `caption` is the text the tab shows (the source's `label`, a Dafny keyword). */
  datatype FileItem = FileItem(key: string, caption: string, closeable: bool, disabled: bool)

  /** Where the buttons sit; the property is optional. */
  datatype Align = Bottom | Left | Right | Top

  /** A request the bar makes of its owner: the file and its index. */
  datatype Request = Request(file: FileItem, index: int)

  /** Every tab is disabled (vacuously so for no tabs). */
  predicate AllDisabled(files: seq<FileItem>) {
    forall k :: 0 <= k < |files| ==> files[k].disabled
  }

  /** One step of the search: `(i + 1) % n` forward, `(n + (i - 1)) % n` backward. */
  function Step(n: nat, i: int, backwards: bool): (j: int)
    requires n > 0 && 0 <= i < n
    ensures 0 <= j < n
    ensures !backwards ==> j == (if i + 1 < n then i + 1 else 0)
    ensures backwards ==> j == (if i > 0 then i - 1 else n - 1)
  {
    if backwards then ModBelow(n + (i - 1), n); (n + (i - 1)) % n
    else ModBelow(i + 1, n); (i + 1) % n
  }

  /** `a % n` for `0 <= a < 2n`: `a` itself below `n`, `a - n` from `n` on. */
  lemma ModBelow(a: int, n: int)
    requires 0 < n && 0 <= a < 2 * n
    ensures a < n ==> a % n == a
    ensures n <= a ==> a % n == a - n
  {
  }

  /** The index `d` steps away from `start`, going round the strip. */
  function Pos(n: nat, start: nat, d: nat, backwards: bool): (p: nat)
    requires start < n && d < n
    ensures p < n
  {
    if backwards then (if d <= start then start - d else start - d + n)
    else (if start + d < n then start + d else start + d - n)
  }

  lemma PosStep(n: nat, start: nat, d: nat, backwards: bool)
    requires start < n && d + 1 < n
    ensures Step(n, Pos(n, start, d, backwards), backwards) == Pos(n, start, d + 1, backwards)
  {
  }

  /** Every index is reached from every start within `n` steps. */
  lemma PosOnto(n: nat, start: nat, k: nat, backwards: bool) returns (d: nat)
    requires start < n && k < n
    ensures d < n && Pos(n, start, d, backwards) == k
  {
    if backwards {
      d := if k <= start then start - k else start - k + n;
    } else {
      d := if start <= k then k - start else k - start + n;
    }
  }

  /** `r` is the first enabled tab met walking from `start`. */
  predicate FirstEnabledFrom(files: seq<FileItem>, start: nat, backwards: bool, r: nat)
    requires start < |files|
  {
    && r < |files| && !files[r].disabled
    && exists d :: 0 <= d < |files| && Pos(|files|, start, d, backwards) == r &&
         forall e :: 0 <= e < d ==> files[Pos(|files|, start, e, backwards)].disabled
  }

  /** The tab the search starts from: the requested index if a tab is there,
      otherwise the last tab. */
  function StartIndex(n: nat, current: int): (s: nat)
    requires n > 0
    ensures s < n
    ensures 0 <= current < n ==> s == current
    ensures !(0 <= current < n) ==> s == n - 1
  {
    if 0 <= current < n then current else n - 1
  }

  /** `_validateIndex(current, backwards)`: nothing when every tab is
      disabled, otherwise the first enabled tab met walking from the start
      index in the given direction. */
  method ValidateIndex(files: seq<FileItem>, current: int, backwards: bool) returns (r: Option<nat>)
    ensures r.None? <==> AllDisabled(files)
    ensures r.Some? ==> FirstEnabledFrom(files, StartIndex(|files|, current), backwards, r.value)
    ensures r.Some? && 0 <= current < |files| && !files[current].disabled ==> r.value == current
  {
    if forall k :: 0 <= k < |files| ==> files[k].disabled {
      return None;
    }
    var n := |files|;
    var start := StartIndex(n, current);
    var k :| 0 <= k < n && !files[k].disabled;
    var dk := PosOnto(n, start, k, backwards);
    var i := start;
    var d := 0;
    while files[i].disabled
      invariant 0 <= d <= dk && i == Pos(n, start, d, backwards)
      invariant forall e :: 0 <= e < d ==> files[Pos(n, start, e, backwards)].disabled
      decreases dk - d
    {
      PosStep(n, start, d, backwards);
      i := Step(n, i, backwards);
      d := d + 1;
    }
    return Some(i);
  }

  /** `selectIndex(index, backwards)`: ask for the tab the search lands on,
      unless there is none, it is already the active one, or the owner gave
      no `onRequestTabChange` handler (`hasHandler`). */
  method SelectIndex(files: seq<FileItem>, activeIndex: int, index: int, backwards: bool, hasHandler: bool) returns (r: Option<Request>)
    ensures r.None? <==> !hasHandler || AllDisabled(files) || (0 <= activeIndex < |files| && FirstEnabledFrom(files, StartIndex(|files|, index), backwards, activeIndex))
    ensures r.Some? ==> 0 <= r.value.index < |files| && r.value.index != activeIndex
    ensures r.Some? ==> r.value.file == files[r.value.index] && !r.value.file.disabled
    ensures r.Some? ==> FirstEnabledFrom(files, StartIndex(|files|, index), backwards, r.value.index)
  {
    var v := ValidateIndex(files, index, backwards);
    if v.Some? && v.value != activeIndex && hasHandler {
      FirstEnabledUnique(files, StartIndex(|files|, index), backwards, v.value);
      return Some(Request(files[v.value], v.value));
    }
    return None;
  }

  /** The walk meets only one first enabled tab. */
  lemma FirstEnabledUnique(files: seq<FileItem>, start: nat, backwards: bool, a: nat)
    requires start < |files|
    requires FirstEnabledFrom(files, start, backwards, a)
    ensures forall b: nat :: FirstEnabledFrom(files, start, backwards, b) ==> b == a
  {
    var n := |files|;
    var da :| 0 <= da < n && Pos(n, start, da, backwards) == a &&
      forall e :: 0 <= e < da ==> files[Pos(n, start, e, backwards)].disabled;
    forall b: nat | FirstEnabledFrom(files, start, backwards, b)
      ensures b == a
    {
      var db :| 0 <= db < n && Pos(n, start, db, backwards) == b &&
        forall e :: 0 <= e < db ==> files[Pos(n, start, e, backwards)].disabled;
    }
  }

  // ---------------------------------------------------------------------
  // Keyboard navigation

  /** `selectNextIndex`: the tab after the active one, wrapping to 0, searching forward. */
  function NextIndex(n: nat, activeIndex: int): (r: int)
    ensures n > 0 && 0 <= activeIndex < n ==> 0 <= r < n && r == Step(n, activeIndex, false)
  {
    if activeIndex == n - 1 then 0 else activeIndex + 1
  }

  /** `selectPreviousIndex`: the tab before the active one, wrapping to the
      last, searching backward. */
  function PreviousIndex(n: nat, activeIndex: int): (r: int)
    ensures n > 0 && 0 <= activeIndex < n ==> 0 <= r < n && r == Step(n, activeIndex, true)
  {
    if activeIndex == 0 then n - 1 else activeIndex - 1
  }

  /** The keys a tab button reports. */
  datatype Key = UpArrow | DownArrow | LeftArrow | RightArrow | Home | End

  /** Where a key sends the search: start index and direction; nothing for
      Up and Down unless the buttons are aligned left or right. */
  function KeyTarget(n: nat, activeIndex: int, alignButtons: Option<Align>, key: Key): (r: Option<(int, bool)>)
    ensures r.None? <==> (key.UpArrow? || key.DownArrow?) && alignButtons != Some(Left) && alignButtons != Some(Right)
    ensures key.Home? ==> r == Some((0, true))
    ensures key.End? ==> r == Some((n - 1, false))
    ensures r.Some? && (key.RightArrow? || key.DownArrow?) ==> r.value == (NextIndex(n, activeIndex), false)
    ensures r.Some? && (key.LeftArrow? || key.UpArrow?) ==> r.value == (PreviousIndex(n, activeIndex), true)
  {
    var vertical := alignButtons == Some(Left) || alignButtons == Some(Right);
    match key
    case UpArrow => if vertical then Some((PreviousIndex(n, activeIndex), true)) else None
    case DownArrow => if vertical then Some((NextIndex(n, activeIndex), false)) else None
    case LeftArrow => Some((PreviousIndex(n, activeIndex), true))
    case RightArrow => Some((NextIndex(n, activeIndex), false))
    case Home => Some((0, true))
    case End => Some((n - 1, false))
  }

  /** A key press on a tab button: the change request it leads to, if any.
      There is one exactly when the key moves the search at all, the owner
      handles change requests, some tab is enabled, and the search does not
      land on the active tab. */
  method KeyPress(files: seq<FileItem>, activeIndex: int, alignButtons: Option<Align>, key: Key, hasHandler: bool) returns (r: Option<Request>)
    ensures r.None? <==> (
      || !hasHandler
      || KeyTarget(|files|, activeIndex, alignButtons, key).None?
      || AllDisabled(files)
      || (0 <= activeIndex < |files| &&
          var t := KeyTarget(|files|, activeIndex, alignButtons, key).value;
          FirstEnabledFrom(files, StartIndex(|files|, t.0), t.1, activeIndex)))
    ensures r.Some? ==> 0 <= r.value.index < |files| && r.value.index != activeIndex
    ensures r.Some? ==> r.value.file == files[r.value.index] && !r.value.file.disabled
    ensures r.Some? ==> var t := KeyTarget(|files|, activeIndex, alignButtons, key).value;
      FirstEnabledFrom(files, StartIndex(|files|, t.0), t.1, r.value.index)
  {
    var t := KeyTarget(|files|, activeIndex, alignButtons, key);
    if t.None? {
      return None;
    }
    r := SelectIndex(files, activeIndex, t.value.0, t.value.1, hasHandler);
  }

  /** With two or more tabs, all enabled, the search for Left or Right never
      lands back on the active tab; so, given a handler, those keys always
      yield a change request. */
  lemma ArrowAlwaysMoves(files: seq<FileItem>, activeIndex: int, alignButtons: Option<Align>, key: Key)
    requires |files| > 1 && 0 <= activeIndex < |files|
    requires forall k :: 0 <= k < |files| ==> !files[k].disabled
    requires key.LeftArrow? || key.RightArrow?
    ensures var t := KeyTarget(|files|, activeIndex, alignButtons, key).value;
      !FirstEnabledFrom(files, StartIndex(|files|, t.0), t.1, activeIndex)
  {
    var n := |files|;
    var t := KeyTarget(n, activeIndex, alignButtons, key).value;
    var s := StartIndex(n, t.0);
    assert s != activeIndex;
    forall d | 0 <= d < n && Pos(n, s, d, t.1) == activeIndex
      ensures 0 < d && !files[Pos(n, s, 0, t.1)].disabled
    {
      assert Pos(n, s, 0, t.1) == s;
    }
  }

  /** Home starts at tab 0 and searches backward, so when tab 0 is disabled
      it lands on the last enabled tab, not the first. */
  lemma {:induction false} HomeLandsOnLastEnabled(files: seq<FileItem>, r: nat)
    requires |files| > 0 && files[0].disabled
    requires FirstEnabledFrom(files, StartIndex(|files|, 0), true, r)
    ensures r > 0
    ensures forall k :: r < k < |files| ==> files[k].disabled
  {
    var n := |files|;
    var d :| 0 <= d < n && Pos(n, 0, d, true) == r &&
      forall e :: 0 <= e < d ==> files[Pos(n, 0, e, true)].disabled;
    forall k | r < k < n
      ensures files[k].disabled
    {
      assert Pos(n, 0, n - k, true) == k;
    }
  }

  /** End starts at the last tab and searches forward, so when the last tab
      is disabled it wraps round to the first enabled tab. */
  lemma {:induction false} EndLandsOnFirstEnabled(files: seq<FileItem>, r: nat)
    requires |files| > 0 && files[|files| - 1].disabled
    requires FirstEnabledFrom(files, StartIndex(|files|, |files| - 1), false, r)
    ensures r < |files| - 1
    ensures forall k :: 0 <= k < r ==> files[k].disabled
  {
    var n := |files|;
    var last := n - 1;
    var d :| 0 <= d < n && Pos(n, last, d, false) == r &&
      forall e :: 0 <= e < d ==> files[Pos(n, last, e, false)].disabled;
    forall k | 0 <= k < r
      ensures files[k].disabled
    {
      assert Pos(n, last, k + 1, false) == k;
    }
  }

  /** With every tab enabled, Right moves to the next tab round the strip. */
  lemma RightWhenAllEnabled(files: seq<FileItem>, activeIndex: int, r: nat)
    requires |files| > 1 && 0 <= activeIndex < |files|
    requires forall k :: 0 <= k < |files| ==> !files[k].disabled
    requires FirstEnabledFrom(files, StartIndex(|files|, NextIndex(|files|, activeIndex)), false, r)
    ensures r == (activeIndex + 1) % |files|
  {
    var n := |files|;
    var s := NextIndex(n, activeIndex);
    assert FirstEnabledFrom(files, s, false, s) by {
      assert Pos(n, s, 0, false) == s;
    }
    FirstEnabledUnique(files, s, false, s);
  }

  /** `closeIndex(index)`: ask the owner to close the tab; the file is
      whatever is at the index, possibly nothing. */
  function CloseIndex(files: seq<FileItem>, index: int, hasHandler: bool): (r: Option<(Option<FileItem>, int)>)
    ensures r.Some? <==> hasHandler
    ensures r.Some? ==> r.value.1 == index
    ensures r.Some? ==> (r.value.0.Some? <==> 0 <= index < |files|)
    ensures r.Some? && 0 <= index < |files| ==> r.value.0.value == files[index]
  {
    if hasHandler then Some((At(files, index), index)) else None
  }

  // ---------------------------------------------------------------------
  // Buttons

  /** The properties `_renderTabButtons` gives one tab button. */
  datatype Button = Button(key: string, caption: string, index: nat, active: bool, closeable: bool, disabled: bool)

  /** `_renderTabButtons`: one button per tab, in order, the one at the
      active index marked active. */
  function Buttons(files: seq<FileItem>, activeIndex: int): (bs: seq<Button>)
    ensures |bs| == |files|
    ensures forall i :: 0 <= i < |bs| ==>
      && bs[i].key == files[i].key && bs[i].caption == files[i].caption
      && bs[i].index == i && bs[i].closeable == files[i].closeable && bs[i].disabled == files[i].disabled
    ensures forall i :: 0 <= i < |bs| ==> (bs[i].active <==> i == activeIndex)
  {
    seq(|files|, i requires 0 <= i < |files| =>
      Button(files[i].key, files[i].caption, i, i == activeIndex, files[i].closeable, files[i].disabled))
  }

  /** The bar's `aria-orientation`: vertical for side-aligned buttons. */
  function Vertical(alignButtons: Option<Align>): (v: bool)
    ensures v <==> alignButtons == Some(Left) || alignButtons == Some(Right)
  {
    match alignButtons
    case Some(Left) => true
    case Some(Right) => true
    case _ => false
  }
}
