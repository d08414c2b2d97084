/** The tree pane's scroll state: the sizes `render` records, the clamped
    position update every scroll source goes through, and the drag latch
    that turns pointer moves into position updates. Positions and deltas are
    in rows and are exact reals. */
module TreePaneScroll {

  /** Pixel height of one row; pointer and wheel deltas are divided by it. */
  const RowHeight: real := 22.0

  /** `_scrollPosition`, `_size` and `_sliderSize`. */
  datatype Scroll = Scroll(position: real, size: real, sliderSize: real)

  /** What `render` stores after building the rows: `size` is the number of
      slots and `sliderSize` is the visible row count, cut down to `size`. */
  function Measure(position: real, rowCount: nat, visibleRowCount: real): (s: Scroll)
    ensures s.position == position
    ensures s.size == rowCount as real
    ensures s.sliderSize <= s.size && s.sliderSize <= visibleRowCount
    ensures s.sliderSize == s.size || s.sliderSize == visibleRowCount
    ensures visibleRowCount >= 0.0 ==> 0.0 <= s.sliderSize
  {
    var size := rowCount as real;
    Scroll(position, size, if visibleRowCount > size then size else visibleRowCount)
  }

  /** The slider spans the whole track exactly when every row fits in the
      visible area, and is the visible row count exactly when it does not
      exceed the rows there are. */
  lemma MeasureFits(position: real, rowCount: nat, visibleRowCount: real)
    ensures var s := Measure(position, rowCount, visibleRowCount);
      && (s.sliderSize == s.size <==> visibleRowCount >= s.size)
      && (s.sliderSize == visibleRowCount <==> visibleRowCount <= s.size)
  {
  }

  /** The largest position an update can produce: one row past
      `size - sliderSize`. */
  function MaxPosition(s: Scroll): real {
    s.size - s.sliderSize + 1.0
  }

  /** The scroll state is one `render` can produce. */
  predicate Measured(s: Scroll) {
    s.sliderSize <= s.size
  }

  /** `_onPositionUpdate(delta)`: the new position is the old one plus
      `delta`, with anything at or below 0 becoming 0 and anything above the
      maximum becoming the maximum; the flag says whether it moved. */
  function UpdatePosition(s: Scroll, delta: real): (r: (Scroll, bool))
    ensures r.0.size == s.size && r.0.sliderSize == s.sliderSize
    ensures s.position + delta <= 0.0 ==> r.0.position == 0.0
    ensures 0.0 < s.position + delta <= MaxPosition(s) ==> r.0.position == s.position + delta
    ensures 0.0 < s.position + delta && MaxPosition(s) < s.position + delta ==> r.0.position == MaxPosition(s)
    ensures Measured(s) ==> 0.0 <= r.0.position <= MaxPosition(s)
    ensures r.1 <==> r.0.position != s.position
  {
    var updated := s.position + delta;
    var maxPosition := MaxPosition(s);
    var position := if updated > 0.0 then (if updated > maxPosition then maxPosition else updated) else 0.0;
    (s.(position := position), position != s.position)
  }

  /** Any run of updates from a measured state stays in `[0, size - sliderSize + 1]`. */
  function UpdateAll(s: Scroll, deltas: seq<real>): Scroll
    decreases |deltas|
  {
    if deltas == [] then s else UpdateAll(UpdatePosition(s, deltas[0]).0, deltas[1..])
  }

  lemma {:induction false} UpdatesStayInRange(s: Scroll, deltas: seq<real>)
    requires Measured(s) && deltas != []
    ensures Measured(UpdateAll(s, deltas))
    ensures 0.0 <= UpdateAll(s, deltas).position <= MaxPosition(s)
    ensures UpdateAll(s, deltas).size == s.size && UpdateAll(s, deltas).sliderSize == s.sliderSize
    decreases |deltas|
  {
    if |deltas| > 1 {
      UpdatesStayInRange(UpdatePosition(s, deltas[0]).0, deltas[1..]);
    }
  }

  /** Once in range, an update that would leave it is absorbed: pushing
      further past either end reports no change. */
  lemma PushPastEnd(s: Scroll, delta: real)
    requires Measured(s)
    requires (s.position == 0.0 && delta <= 0.0) || (s.position == MaxPosition(s) && delta >= 0.0)
    ensures !UpdatePosition(s, delta).1
    ensures UpdatePosition(s, delta).0 == s
  {
  }

  /** The row range the scroll bar shows is never empty after `render`. */
  lemma MeasuredRangeNonEmpty(position: real, rowCount: nat, visibleRowCount: real)
    ensures MaxPosition(Measure(position, rowCount, visibleRowCount)) >= 1.0
  {
  }

  /** 100 rows, 10 visible, at row 95, scrolled down 50 rows: the position
      stops at 91, one past `size - sliderSize`. */
  lemma ExampleClamp()
    ensures UpdatePosition(Scroll(95.0, 100.0, 10.0), 50.0) == (Scroll(91.0, 100.0, 10.0), true)
  {
  }

  // ---------------------------------------------------------------------
  // Pointer dragging

  /** `_dragging` and `_dragPosition`. */
  datatype Drag = Drag(dragging: bool, dragPosition: real)

  /** `_onDragStart`: latch on, remember where the pointer is. */
  function DragStart(d: Drag, at: real): (r: Drag)
    ensures r.dragging && r.dragPosition == at
  {
    Drag(true, at)
  }

  /** What the latch held before a drag start plays no part. */
  lemma DragStartForgets(d: Drag, e: Drag, at: real)
    ensures DragStart(d, at) == DragStart(e, at)
  {
  }

  /** `_onDragEnd`: latch off. */
  function DragEnd(d: Drag): (r: Drag)
    ensures !r.dragging && r.dragPosition == d.dragPosition
  {
    d.(dragging := false)
  }

  /** `_onDragMove`: only while the latch is on, scroll by the pointer's
      travel in rows and remember the new pointer position. */
  function DragMove(d: Drag, s: Scroll, at: real): (r: (Drag, Scroll))
    ensures !d.dragging ==> r == (d, s)
    ensures d.dragging ==> r.0 == Drag(true, at)
    ensures d.dragging ==> r.1 == UpdatePosition(s, (at - d.dragPosition) / RowHeight).0
  {
    if d.dragging then (Drag(true, at), UpdatePosition(s, (at - d.dragPosition) / RowHeight).0)
    else (d, s)
  }

  /** After the drag ends, pointer moves leave everything alone. */
  lemma MoveAfterEnd(d: Drag, s: Scroll, at: real)
    ensures DragMove(DragEnd(d), s, at) == (DragEnd(d), s)
  {
  }

  /** Start then move: the position follows the pointer's travel since the start. */
  lemma MoveAfterStart(d: Drag, s: Scroll, from: real, to: real)
    ensures DragMove(DragStart(d, from), s, to).1 == UpdatePosition(s, (to - from) / RowHeight).0
    ensures DragMove(DragStart(d, from), s, to).0.dragging
  {
  }

  /** `_onwheel`: scroll by the wheel's travel in rows; the browser's own
      scrolling is prevented exactly when the position moved. */
  function Wheel(s: Scroll, deltaY: real): (r: (Scroll, bool))
    ensures r.0 == UpdatePosition(s, deltaY / RowHeight).0
    ensures r.1 <==> r.0.position != s.position
  {
    UpdatePosition(s, deltaY / RowHeight)
  }

  /** `_onScrollbarScroll`: the scroll bar reports its delta in rows; the
      sizes stay, a move that lands in range is taken exactly, and one that
      overshoots stops at the nearer end. */
  function ScrollbarScroll(s: Scroll, delta: real): (r: Scroll)
    ensures r.size == s.size && r.sliderSize == s.sliderSize
    ensures Measured(s) ==> 0.0 <= r.position <= MaxPosition(s)
    ensures 0.0 <= s.position + delta <= MaxPosition(s) ==> r.position == s.position + delta
    ensures s.position + delta <= 0.0 ==> r.position == 0.0
    ensures 0.0 < s.position + delta && MaxPosition(s) < s.position + delta ==> r.position == MaxPosition(s)
  {
    UpdatePosition(s, delta).0
  }

  /** Moving the scroll bar by `delta` and back by `-delta` restores the
      state, as long as both positions are in range. */
  lemma ScrollbarBack(s: Scroll, delta: real)
    requires 0.0 <= s.position <= MaxPosition(s)
    requires 0.0 <= s.position + delta <= MaxPosition(s)
    ensures ScrollbarScroll(ScrollbarScroll(s, delta), -delta) == s
  {
  }
}
