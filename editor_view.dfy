// The drawing logic of the `EditorView` wrapper (src/ui/editor_view.rs): the
// visual-row cache, the line-number gutter and the search highlight laid over
// a soft-wrapped text editor. The visual rows themselves are computed by code
// that is not part of this model, so they arrive as an input; text
// measurement (`min_bounds`, `grapheme_position`) arrives as values or as a
// function parameter.

module EditorView {
  import opened Wrappers
  import opened Overlay
  import opened WidgetCalc

  /** One visual (wrapped) row of a logical line, as the layout reports it. */
  datatype VisualRow = VisualRow(logicalLineIndex: nat, isFirstVisualRow: bool, y: real, height: real)

  /** The line-height factor iced uses by default. */
  const LineHeightFactor: real := 1.3

  /** How far the content width may drift before the visual rows are recomputed. */
  const WidthTolerance: real := 0.1

  function Abs(x: real): (r: real)
    ensures r >= 0.0 && (r == x || r == -x)
  {
    if x < 0.0 then -x else x
  }

  /** The per-widget cache `draw` keeps between frames. */
  class Cache {
    var visualRows: seq<VisualRow>
    var lastWidth: real
    var lastVersion: nat
    var charWidth: real
    var singleLineHeight: real

    /** The default cache: no rows, nothing measured. */
    constructor ()
      ensures visualRows == [] && lastWidth == 0.0 && lastVersion == 0
      ensures charWidth == 0.0 && singleLineHeight == 0.0
    {
      visualRows := [];
      lastWidth := 0.0;
      lastVersion := 0;
      charWidth := 0.0;
      singleLineHeight := 0.0;
    }

    /** The rows are stale when the width moved by more than the tolerance, the content changed, or there are none. */
    predicate NeedsRebuild(contentWidth: real, version: nat)
      reads this
    {
      Abs(lastWidth - contentWidth) > WidthTolerance || lastVersion != version || |visualRows| == 0
    }

    /** Char metrics are measured only while no char width is cached; the row height is 1.3 times the text size. */
    method MeasureOnce(measuredCharWidth: real, textSize: real)
      modifies this
      ensures old(charWidth) == 0.0 ==> charWidth == measuredCharWidth && singleLineHeight == textSize * LineHeightFactor
      ensures old(charWidth) != 0.0 ==> charWidth == old(charWidth) && singleLineHeight == old(singleLineHeight)
      ensures visualRows == old(visualRows) && lastWidth == old(lastWidth) && lastVersion == old(lastVersion)
    {
      if charWidth == 0.0 {
        charWidth := measuredCharWidth;
        singleLineHeight := textSize * LineHeightFactor;
      }
    }

    /**
     * Rebuild the rows from `rows` (what the layout computes for the current
     * content) when they are stale, and record the inputs they were built
     * for. Refreshing with a non-empty layout leaves nothing stale, so a
     * second refresh with the same inputs changes nothing.
     */
    method Refresh(contentWidth: real, version: nat, rows: seq<VisualRow>)
      modifies this
      ensures old(NeedsRebuild(contentWidth, version)) ==>
        visualRows == rows && lastWidth == contentWidth && lastVersion == version
      ensures !old(NeedsRebuild(contentWidth, version)) ==>
        visualRows == old(visualRows) && lastWidth == old(lastWidth) && lastVersion == old(lastVersion)
      ensures charWidth == old(charWidth) && singleLineHeight == old(singleLineHeight)
      ensures |rows| > 0 ==> !NeedsRebuild(contentWidth, version)
    {
      if NeedsRebuild(contentWidth, version) {
        visualRows := rows;
        lastWidth := contentWidth;
        lastVersion := version;
      }
    }
  }

  // ---------------------------------------------------------------------
  // Gutter

  /** The label a row gets: its 1-based logical line number, only on a line's first visual row and only when the row overlaps the viewport. */
  function RowLabel(row: VisualRow, textTop: real, viewportStart: real, viewportEnd: real): seq<Label>
  {
    if row.isFirstVisualRow && IsLineInViewport(textTop + row.y, row.height, viewportStart, viewportEnd)
    then [Label(row.logicalLineIndex + 1, textTop + row.y)]
    else []
  }

  /** The labels of all rows, in row order, with no early stop. */
  function Shown(rows: seq<VisualRow>, textTop: real, viewportStart: real, viewportEnd: real): seq<Label>
  {
    if |rows| == 0 then []
    else Shown(rows[..|rows| - 1], textTop, viewportStart, viewportEnd)
         + RowLabel(rows[|rows| - 1], textTop, viewportStart, viewportEnd)
  }

  /** Rows laid out top to bottom. */
  predicate YOrdered(rows: seq<VisualRow>)
  {
    forall i, j :: 0 <= i <= j < |rows| ==> rows[i].y <= rows[j].y
  }

  /** A label is shown exactly when some first visual row that overlaps the viewport carries it. */
  lemma {:induction false} ShownMembers(rows: seq<VisualRow>, textTop: real, viewportStart: real, viewportEnd: real, l: Label)
    ensures l in Shown(rows, textTop, viewportStart, viewportEnd) <==>
      exists r :: r in rows && r.isFirstVisualRow
        && IsLineInViewport(textTop + r.y, r.height, viewportStart, viewportEnd)
        && l == Label(r.logicalLineIndex + 1, textTop + r.y)
  {
    if |rows| > 0 {
      var front := rows[..|rows| - 1];
      var last := rows[|rows| - 1];
      ShownMembers(front, textTop, viewportStart, viewportEnd, l);
      assert rows == front + [last];
      assert forall r :: r in rows <==> r in front || r == last;
    }
  }

  /** Rows below a row that is already past the viewport are invisible too, so nothing after it would be labelled. */
  lemma {:induction false} ShownStopsBelow(rows: seq<VisualRow>, i: nat, textTop: real, viewportStart: real, viewportEnd: real)
    requires YOrdered(rows) && i < |rows| && textTop + rows[i].y > viewportEnd
    ensures Shown(rows, textTop, viewportStart, viewportEnd) == Shown(rows[..i], textTop, viewportStart, viewportEnd)
    decreases |rows|
  {
    var front := rows[..|rows| - 1];
    assert RowLabel(rows[|rows| - 1], textTop, viewportStart, viewportEnd) == [];
    if i < |rows| - 1 {
      assert YOrdered(front);
      assert front[..i] == rows[..i];
      ShownStopsBelow(front, i, textTop, viewportStart, viewportEnd);
    } else {
      assert front == rows[..i];
    }
  }

  /**
   * The gutter loop in `draw`: skip rows outside the viewport, stop at the
   * first row whose top is below it, label first visual rows. It always
   * labels some prefix of the rows; when the rows are in top-to-bottom
   * order, the early stop loses nothing.
   */
  method DrawGutter(rows: seq<VisualRow>, textTop: real, viewportStart: real, viewportEnd: real)
      returns (labels: seq<Label>)
    ensures exists k :: 0 <= k <= |rows| && labels == Shown(rows[..k], textTop, viewportStart, viewportEnd)
    ensures YOrdered(rows) ==> labels == Shown(rows, textTop, viewportStart, viewportEnd)
  {
    labels := [];
    var i := 0;
    while i < |rows|
      invariant 0 <= i <= |rows|
      invariant labels == Shown(rows[..i], textTop, viewportStart, viewportEnd)
    {
      var row := rows[i];
      var absY := textTop + row.y;
      assert rows[..i + 1][..i] == rows[..i];
      if !IsLineInViewport(absY, row.height, viewportStart, viewportEnd) {
        if absY > viewportEnd {
          if YOrdered(rows) {
            ShownStopsBelow(rows, i, textTop, viewportStart, viewportEnd);
          }
          break;
        }
        i := i + 1;
        continue;
      }
      if row.isFirstVisualRow {
        labels := labels + [Label(row.logicalLineIndex + 1, absY)];
      }
      i := i + 1;
    }
    assert i == |rows| ==> rows[..i] == rows;
  }

  // ---------------------------------------------------------------------
  // Search highlight

  const UsizeMax: nat := 0xFFFF_FFFF_FFFF_FFFF

  /** A float-to-`usize` cast: negative values become 0, too large ones the maximum. */
  function SaturatingUsize(f: int): (n: nat)
    ensures n <= UsizeMax
    ensures 0 <= f <= UsizeMax ==> n == f
    ensures f < 0 ==> n == 0
    ensures f > UsizeMax ==> n == UsizeMax
  {
    if f < 0 then 0 else if f > UsizeMax then UsizeMax else f
  }

  /** How many glyphs fit on a visual row: `floor(content_width / char_width)`, or the maximum when the char width is not positive. */
  function CharsPerRow(contentWidth: real, charWidth: real): nat
  {
    if charWidth > 0.0 then SaturatingUsize((contentWidth / charWidth).Floor) else UsizeMax
  }

  /** Within range, `CharsPerRow` is the number of whole glyphs that fit: they do, and one more would not. */
  lemma CharsPerRowFits(contentWidth: real, charWidth: real)
    requires charWidth > 0.0 && contentWidth >= 0.0 && CharsPerRow(contentWidth, charWidth) < UsizeMax
    ensures var p := CharsPerRow(contentWidth, charWidth);
      p as real * charWidth <= contentWidth < (p + 1) as real * charWidth
  {
    var q := contentWidth / charWidth;
    assert q * charWidth == contentWidth;
    var p := CharsPerRow(contentWidth, charWidth);
    assert p == q.Floor;
    assert p as real * charWidth <= q * charWidth;
    assert q < (p + 1) as real;
    assert q * charWidth < (p + 1) as real * charWidth;
    assert contentWidth < (p + 1) as real * charWidth;
  }

  /** A logical column as (visual row, column within that row), for rows of `charsPerRow` glyphs. */
  function VisualPosition(column: nat, charsPerRow: nat): (p: (nat, nat))
  {
    if charsPerRow > 0 then (column / charsPerRow, column % charsPerRow) else (0, column)
  }

  /** The visual position is the only (row, column) pair that lays `column` out on rows of `charsPerRow`. */
  lemma VisualPositionUnique(column: nat, charsPerRow: nat, row: nat, col: nat)
    requires charsPerRow > 0
    ensures VisualPosition(column, charsPerRow) == (row, col)
      <==> row * charsPerRow + col == column && col < charsPerRow
  {
    if row * charsPerRow + col == column && col < charsPerRow {
      DivModUnique(column, charsPerRow, row, col);
    }
  }

  /** The y offset of a logical line's first visual row, or 0 when no row has it. */
  function FirstRowY(rows: seq<VisualRow>, line: nat): (y: real)
    ensures (exists i :: 0 <= i < |rows| && rows[i].logicalLineIndex == line && rows[i].isFirstVisualRow)
      ==> (exists i :: 0 <= i < |rows| && rows[i].logicalLineIndex == line && rows[i].isFirstVisualRow
             && y == rows[i].y
             && forall j :: 0 <= j < i ==> !(rows[j].logicalLineIndex == line && rows[j].isFirstVisualRow))
    ensures (forall i :: 0 <= i < |rows| ==> !(rows[i].logicalLineIndex == line && rows[i].isFirstVisualRow))
      ==> y == 0.0
  {
    if |rows| == 0 then 0.0
    else if rows[0].logicalLineIndex == line && rows[0].isFirstVisualRow then rows[0].y
    else
      var y := FirstRowY(rows[1..], line);
      assert forall i :: 1 <= i < |rows| ==> rows[i] == rows[1..][i - 1];
      y
  }

  /** A full-width middle row of a multi-row highlight, `k` rows below the first. */
  function MiddleRow(left: real, top: real, contentWidth: real, singleLineHeight: real, startYOffset: real, k: nat): Rect
  {
    Rect(left, top + (startYOffset + Steps(k, singleLineHeight)), contentWidth, singleLineHeight)
  }

  /** Consecutive rows never overshoot: a row count whose offset is still short of a target lies below any count that reaches it. */
  lemma StepsBelow(k: nat, n: nat, d: real, target: real)
    requires d > 0.0 && Steps(k, d) < target <= Steps(n, d)
    ensures k < n
  {
    if n <= k {
      StepsMonotone(n, k, d);
    }
  }

  /**
   * The full-width rows between the first and the last row of a multi-row
   * highlight: one row further down each time, for as long as the row is
   * more than half a pixel above the last row.
   */
  method MiddleRows(left: real, top: real, contentWidth: real, singleLineHeight: real,
                    startYOffset: real, endYOffset: real)
      returns (middle: seq<Rect>)
    requires singleLineHeight > 0.0
    ensures forall k :: 1 <= k <= |middle| ==>
      middle[k - 1] == MiddleRow(left, top, contentWidth, singleLineHeight, startYOffset, k)
      && startYOffset + Steps(k, singleLineHeight) < endYOffset - 0.5
    ensures startYOffset + Steps(|middle| + 1, singleLineHeight) >= endYOffset - 0.5
  {
    middle := [];
    var y := startYOffset + singleLineHeight;
    ghost var n := StepsReach(singleLineHeight, endYOffset - startYOffset);
    while y < endYOffset - 0.5
      invariant y == startYOffset + Steps(|middle| + 1, singleLineHeight)
      invariant forall k :: 1 <= k <= |middle| ==>
        middle[k - 1] == MiddleRow(left, top, contentWidth, singleLineHeight, startYOffset, k)
        && startYOffset + Steps(k, singleLineHeight) < endYOffset - 0.5
      decreases n - |middle|
    {
      StepsBelow(|middle| + 1, n, singleLineHeight, endYOffset - startYOffset);
      middle := middle + [Rect(left, top + y, contentWidth, singleLineHeight)];
      y := y + singleLineHeight;
    }
  }

  /**
   * The highlight rectangles for one search match on one logical line, given
   * where the layout places its start and end. On one visual row (the two
   * offsets less than a pixel apart): a single rectangle between them.
   * Across rows: the rest of the first row, the full-width middle rows one
   * row apart for as long as they stay more than half a pixel above the
   * last row, and the start of the last row.
   */
  predicate HighlightLaidOut(quads: seq<Rect>, left: real, top: real, contentWidth: real, singleLineHeight: real,
                             startX: real, startYOffset: real, endX: real, endYOffset: real)
  {
    (Abs(startYOffset - endYOffset) < 1.0 ==>
      quads == [Rect(left + startX, top + startYOffset, endX - startX, singleLineHeight)])
    && (Abs(startYOffset - endYOffset) >= 1.0 ==>
      |quads| >= 2
      && quads[0] == Rect(left + startX, top + startYOffset, contentWidth - startX, singleLineHeight)
      && quads[|quads| - 1] == Rect(left, top + endYOffset, endX, singleLineHeight)
      && (forall k :: 1 <= k < |quads| - 1 ==>
            quads[k] == MiddleRow(left, top, contentWidth, singleLineHeight, startYOffset, k)
            && startYOffset + Steps(k, singleLineHeight) < endYOffset - 0.5)
      && startYOffset + Steps(|quads| - 1, singleLineHeight) >= endYOffset - 0.5)
  }

  /** Draws the rectangles `HighlightLaidOut` describes. */
  method HighlightQuads(left: real, top: real, contentWidth: real, singleLineHeight: real,
                        startX: real, startYOffset: real, endX: real, endYOffset: real)
      returns (quads: seq<Rect>)
    requires singleLineHeight > 0.0
    ensures HighlightLaidOut(quads, left, top, contentWidth, singleLineHeight, startX, startYOffset, endX, endYOffset)
  {
    if Abs(startYOffset - endYOffset) < 1.0 {
      return [Rect(left + startX, top + startYOffset, endX - startX, singleLineHeight)];
    }
    var first := Rect(left + startX, top + startYOffset, contentWidth - startX, singleLineHeight);
    var middle := MiddleRows(left, top, contentWidth, singleLineHeight, startYOffset, endYOffset);
    quads := [first] + middle + [Rect(left, top + endYOffset, endX, singleLineHeight)];
    assert forall k :: 1 <= k < |quads| - 1 ==> quads[k] == middle[k - 1];
  }

  /** Where the layout places a column of the match: its visual position on rows of `perRow` glyphs, or the origin when unavailable. */
  function PlacedAt(graphemePosition: ((nat, nat)) -> Option<(real, real)>, column: nat, perRow: nat): (real, real)
  {
    graphemePosition(VisualPosition(column, perRow)).UnwrapOr((0.0, 0.0))
  }

  /**
   * The highlight pass of `draw` with the layout available: only a match
   * within one logical line is highlighted; its columns are looked up on
   * visual rows of `CharsPerRow` glyphs, measured with `graphemePosition`
   * (an unavailable position counts as the origin), and drawn as
   * `HighlightLaidOut` describes, from the top of that line's first visual
   * row and one pixel inside the padding.
   */
  method DrawSearchHighlight(rows: seq<VisualRow>, start: Position, end: Position,
                             childX: real, childY: real, padding: real, contentWidth: real,
                             charWidth: real, singleLineHeight: real,
                             graphemePosition: ((nat, nat)) -> Option<(real, real)>)
      returns (quads: seq<Rect>)
    requires singleLineHeight > 0.0
    ensures start.line != end.line ==> quads == []
    ensures start.line == end.line ==>
      var perRow := CharsPerRow(contentWidth, charWidth);
      var s := PlacedAt(graphemePosition, start.column, perRow);
      var e := PlacedAt(graphemePosition, end.column, perRow);
      |quads| >= 1
      && HighlightLaidOut(quads, childX + (padding + 1.0), childY + (padding + 1.0) + FirstRowY(rows, start.line),
                          contentWidth, singleLineHeight, s.0, s.1, e.0, e.1)
  {
    if start.line != end.line {
      return [];
    }
    var offset := padding + 1.0;
    var top := childY + offset + FirstRowY(rows, start.line);
    var perRow := CharsPerRow(contentWidth, charWidth);
    var s := PlacedAt(graphemePosition, start.column, perRow);
    var e := PlacedAt(graphemePosition, end.column, perRow);
    quads := HighlightQuads(childX + offset, top, contentWidth, singleLineHeight, s.0, s.1, e.0, e.1);
  }
}
