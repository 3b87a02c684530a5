// Shapes the editor wrappers draw over the text: highlight rectangles and
// gutter line-number labels, and the naive single-line highlight both
// wrappers fall back to (src/ui/undoable.rs and the fallback branch of
// src/ui/editor_view.rs), and the scroll offset that centres a search match
// (src/ui/request.rs and src/ui/response.rs).

module Overlay {
  import opened Wrappers

  /** An axis-aligned rectangle in pixels. */
  datatype Rect = Rect(x: real, y: real, width: real, height: real)

  /** A gutter line number drawn at a vertical position. */
  datatype Label = Label(number: nat, y: real)

  /** A text position: logical line and column (in chars). */
  datatype Position = Position(line: nat, column: nat)

  /** Left edge of a column on the monospace grid whose first column starts at `left`. */
  function ColumnX(left: real, column: nat, charWidth: real): real
  {
    left + column as real * charWidth
  }

  /** Top edge of a logical line when every line is `lineHeight` high and the first starts at `top`. */
  function LineY(top: real, line: nat, lineHeight: real): real
  {
    top + line as real * lineHeight
  }

  /**
   * The highlight both wrappers draw when they cannot consult the text
   * layout: for a selection within one logical line, one rectangle on that
   * line's band from the start column's left edge to the end column's left
   * edge; a selection spanning lines draws nothing.
   */
  function SelectionRect(boundsY: real, childX: real, padding: real, start: Position, end: Position,
                         charWidth: real, lineHeight: real): (r: Option<Rect>)
    requires start.line == end.line ==> start.column <= end.column
    ensures r.Some? <==> start.line == end.line
    ensures r.Some? ==>
      var left := childX + padding + 1.0;
      r.value.x == ColumnX(left, start.column, charWidth)
      && r.value.x + r.value.width == ColumnX(left, end.column, charWidth)
      && r.value.y == LineY(boundsY + padding + 1.0, start.line, lineHeight)
      && r.value.height == lineHeight
  {
    if start.line == end.line then
      var offset := padding + 1.0;
      var width := (end.column - start.column) as real * charWidth;
      Some(Rect(childX + offset + start.column as real * charWidth,
                boundsY + offset + start.line as real * lineHeight,
                width, lineHeight))
    else None
  }

  /**
   * The vertical offset the request and response panels scroll to so that
   * a search match at height `y` sits in the middle of their 400-pixel
   * viewport, never above the top: the larger of `y - 200` and zero.
   */
  function MatchScrollOffset(y: real): (r: real)
    ensures r >= 0.0 && r >= y - 200.0
    ensures r == 0.0 || r == y - 200.0
  {
    var viewportHeight := 400.0;
    if y - viewportHeight / 2.0 > 0.0 then y - viewportHeight / 2.0 else 0.0
  }

  /** A match further down never scrolls the view less far, and a match in the top half of the viewport does not scroll it. */
  lemma MatchScrollOffsetMonotone(y1: real, y2: real)
    ensures y1 <= y2 ==> MatchScrollOffset(y1) <= MatchScrollOffset(y2)
    ensures y1 <= 200.0 ==> MatchScrollOffset(y1) == 0.0
  {
  }
}
