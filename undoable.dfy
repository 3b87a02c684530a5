// The drawing logic of the `Undoable` wrapper (src/ui/undoable.rs): a
// line-number gutter whose rows grow with each line's measured height. Its
// key interception is `KeyChords.Intercept`, its gutter width
// `WidgetCalc.GutterWidth` and its selection highlight
// `Overlay.SelectionRect`. Text measurement arrives as one measured height
// per line.

module Undoable {
  import opened Wrappers
  import opened Strings
  import opened Overlay
  import opened WidgetCalc
  import EditorView

  /** How many chars surely fit on a row without measuring: `floor(content_width / char_width)`, or 0 for a non-positive char width. */
  function MaxChars(contentWidth: real, charWidth: real): nat
  {
    if charWidth > 0.0 then EditorView.SaturatingUsize((contentWidth / charWidth).Floor) else 0
  }

  /**
   * The height a line takes: exactly one line height when its bytes fit on
   * one row, otherwise the larger of the measured height and one line.
   */
  function LineBoxHeight(text: string, measured: real, lineHeight: real, maxChars: nat): (h: real)
    ensures h >= lineHeight
    ensures ByteLen(text) <= maxChars ==> h == lineHeight
    ensures ByteLen(text) > maxChars ==> h >= measured && (h == measured || h == lineHeight)
  {
    if ByteLen(text) <= maxChars then lineHeight
    else if measured > lineHeight then measured else lineHeight
  }

  /** Height a line slot adds: a missing line adds nothing. */
  function SlotHeight(line: Option<string>, measured: real, lineHeight: real, maxChars: nat): real
  {
    if line.Some? then LineBoxHeight(line.value, measured, lineHeight, maxChars) else 0.0
  }

  /** The y below the given lines: the start plus every present line's height. */
  function Bottom(lines: seq<Option<string>>, measured: seq<real>, startY: real, lineHeight: real, maxChars: nat): real
    requires |measured| == |lines|
  {
    if |lines| == 0 then startY
    else
      var n := |lines| - 1;
      Bottom(lines[..n], measured[..n], startY, lineHeight, maxChars)
        + SlotHeight(lines[n], measured[n], lineHeight, maxChars)
  }

  /** The numbers drawn: line `i + 1` at its top, when it is present and its box overlaps the viewport. */
  function Numbers(lines: seq<Option<string>>, measured: seq<real>, startY: real, lineHeight: real, maxChars: nat,
                   viewportStart: real, viewportEnd: real): seq<Label>
    requires |measured| == |lines|
  {
    if |lines| == 0 then []
    else
      var n := |lines| - 1;
      var top := Bottom(lines[..n], measured[..n], startY, lineHeight, maxChars);
      Numbers(lines[..n], measured[..n], startY, lineHeight, maxChars, viewportStart, viewportEnd)
        + (if lines[n].Some?
              && IsLineInViewport(top, LineBoxHeight(lines[n].value, measured[n], lineHeight, maxChars), viewportStart, viewportEnd)
           then [Label(n + 1, top)] else [])
  }

  /** The gutter loop of `draw`: walk the lines, draw visible numbers, and move down by each line's height. */
  method DrawLineNumbers(lines: seq<Option<string>>, measured: seq<real>, startY: real, lineHeight: real, maxChars: nat,
                         viewportStart: real, viewportEnd: real)
      returns (labels: seq<Label>, currentY: real)
    requires |measured| == |lines|
    ensures labels == Numbers(lines, measured, startY, lineHeight, maxChars, viewportStart, viewportEnd)
    ensures currentY == Bottom(lines, measured, startY, lineHeight, maxChars)
  {
    labels := [];
    currentY := startY;
    var i := 0;
    while i < |lines|
      invariant 0 <= i <= |lines|
      invariant labels == Numbers(lines[..i], measured[..i], startY, lineHeight, maxChars, viewportStart, viewportEnd)
      invariant currentY == Bottom(lines[..i], measured[..i], startY, lineHeight, maxChars)
    {
      assert lines[..i + 1][..i] == lines[..i] && measured[..i + 1][..i] == measured[..i];
      if lines[i].None? {
        i := i + 1;
        continue;
      }
      var text := lines[i].value;
      var h := if ByteLen(text) <= maxChars then lineHeight
               else if measured[i] > lineHeight then measured[i] else lineHeight;
      if currentY + h > viewportStart && currentY < viewportEnd {
        labels := labels + [Label(i + 1, currentY)];
      }
      currentY := currentY + h;
      i := i + 1;
    }
    assert lines[..i] == lines && measured[..i] == measured;
  }

  /** How many line slots hold a line. */
  function Present(lines: seq<Option<string>>): nat
  {
    if |lines| == 0 then 0
    else Present(lines[..|lines| - 1]) + (if lines[|lines| - 1].Some? then 1 else 0)
  }

  /** Every present line moves the pen down by at least one line height. */
  lemma {:induction false} BottomAtLeast(lines: seq<Option<string>>, measured: seq<real>, startY: real, lineHeight: real, maxChars: nat)
    requires |measured| == |lines| && lineHeight >= 0.0
    ensures Bottom(lines, measured, startY, lineHeight, maxChars) >= startY + Steps(Present(lines), lineHeight)
  {
    if |lines| > 0 {
      var n := |lines| - 1;
      BottomAtLeast(lines[..n], measured[..n], startY, lineHeight, maxChars);
    }
  }

  /** Line `i + 1` is numbered, at its top, exactly when it is present and its box overlaps the viewport. */
  lemma {:induction false} NumbersMembers(lines: seq<Option<string>>, measured: seq<real>, startY: real, lineHeight: real,
                                          maxChars: nat, viewportStart: real, viewportEnd: real, i: nat, y: real)
    requires |measured| == |lines| && i < |lines|
    ensures Label(i + 1, y) in Numbers(lines, measured, startY, lineHeight, maxChars, viewportStart, viewportEnd)
      <==> (lines[i].Some?
            && y == Bottom(lines[..i], measured[..i], startY, lineHeight, maxChars)
            && IsLineInViewport(y, LineBoxHeight(lines[i].value, measured[i], lineHeight, maxChars), viewportStart, viewportEnd))
  {
    var n := |lines| - 1;
    NumbersBelow(lines[..n], measured[..n], startY, lineHeight, maxChars, viewportStart, viewportEnd, n + 1, y);
    if i < n {
      assert lines[..n][..i] == lines[..i] && measured[..n][..i] == measured[..i];
      NumbersMembers(lines[..n], measured[..n], startY, lineHeight, maxChars, viewportStart, viewportEnd, i, y);
    }
  }

  /** Numbers only name lines that exist: none is above the line count. */
  lemma {:induction false} NumbersBelow(lines: seq<Option<string>>, measured: seq<real>, startY: real, lineHeight: real,
                                        maxChars: nat, viewportStart: real, viewportEnd: real, k: nat, y: real)
    requires |measured| == |lines| && k > |lines|
    ensures Label(k, y) !in Numbers(lines, measured, startY, lineHeight, maxChars, viewportStart, viewportEnd)
  {
    if |lines| > 0 {
      var n := |lines| - 1;
      NumbersBelow(lines[..n], measured[..n], startY, lineHeight, maxChars, viewportStart, viewportEnd, k, y);
    }
  }
}
