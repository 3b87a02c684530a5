// The editor document as the application sees it: a sequence of lines,
// each with its text and its line ending, and the two conversions in
// src/main.rs between a (line, column) position and a byte offset into
// the document's text.

module Document {
  import opened Wrappers
  import opened Strings
  import opened Overlay

  /** One line of the document: its text (without the break) and the break after it ("\n", "\r\n" or nothing). */
  datatype DocLine = DocLine(text: string, ending: string)

  function Min(a: nat, b: nat): nat
  {
    if a <= b then a else b
  }

  /** Bytes a line occupies in the document's text: its text and its ending. */
  function SpanLen(line: DocLine): nat
  {
    ByteLen(line.text) + ByteLen(line.ending)
  }

  /** Bytes the given lines occupy together. */
  function LinesBytes(lines: seq<DocLine>): nat
  {
    if |lines| == 0 then 0
    else LinesBytes(lines[..|lines| - 1]) + SpanLen(lines[|lines| - 1])
  }

  /** The document's text: every line's text followed by its ending. */
  function Flatten(lines: seq<DocLine>): string
  {
    if |lines| == 0 then []
    else
      var n := |lines| - 1;
      Flatten(lines[..n]) + lines[n].text + lines[n].ending
  }

  /** The byte offsets count bytes of the document's text. */
  lemma {:induction false} FlattenBytes(lines: seq<DocLine>)
    ensures ByteLen(Flatten(lines)) == LinesBytes(lines)
  {
    if |lines| > 0 {
      var n := |lines| - 1;
      FlattenBytes(lines[..n]);
      ByteLenAppend(Flatten(lines[..n]) + lines[n].text, lines[n].ending);
      ByteLenAppend(Flatten(lines[..n]), lines[n].text);
    }
  }

  /** The start offsets of the lines never decrease, and a line ends no later than the next one starts. */
  lemma {:induction false} LinesBytesMonotone(lines: seq<DocLine>, i: nat, j: nat)
    requires i <= j <= |lines|
    ensures LinesBytes(lines[..i]) <= LinesBytes(lines[..j])
    ensures i < j ==> LinesBytes(lines[..i]) + SpanLen(lines[i]) <= LinesBytes(lines[..j])
  {
    if i < j {
      LinesBytesMonotone(lines, i, j - 1);
      assert lines[..j][..j - 1] == lines[..j - 1];
    }
  }

  /** A prefix of a string takes no more bytes than the string, and strictly fewer when it is shorter. */
  lemma PrefixBytes(s: string, c: nat)
    requires c <= |s|
    ensures ByteLen(s[..c]) <= ByteLen(s)
    ensures c < |s| ==> ByteLen(s[..c]) < ByteLen(s)
  {
    assert s == s[..c] + s[c..];
    ByteLenAppend(s[..c], s[c..]);
  }

  /**
   * The offset `position_to_byte_index` computes: the bytes of every earlier
   * line (text and ending) plus the bytes of the first `min(column, chars)`
   * chars of the position's line; a line past the end gives the total.
   */
  function PositionOffset(lines: seq<DocLine>, pos: Position): nat
  {
    if pos.line < |lines| then
      var text := lines[pos.line].text;
      LinesBytes(lines[..pos.line]) + ByteLen(text[..Min(pos.column, |text|)])
    else LinesBytes(lines)
  }

  /** `position_to_byte_index`: walk the lines adding up their byte lengths until the position's line. */
  method PositionToByteIndex(lines: seq<DocLine>, pos: Position) returns (index: nat)
    ensures index == PositionOffset(lines, pos)
    ensures index <= LinesBytes(lines)
  {
    var offset := 0;
    var i := 0;
    while i < |lines|
      invariant i <= |lines| && i <= pos.line
      invariant offset == LinesBytes(lines[..i])
    {
      if i == pos.line {
        var text := lines[i].text;
        var targetColumn := Min(pos.column, |text|);
        PrefixBytes(text, targetColumn);
        LinesBytesMonotone(lines, i, |lines|);
        assert lines[..|lines|] == lines;
        return offset + ByteLen(text[..targetColumn]);
      }
      assert lines[..i + 1][..i] == lines[..i];
      offset := offset + ByteLen(lines[i].text) + ByteLen(lines[i].ending);
      i := i + 1;
    }
    assert lines[..i] == lines;
    return offset;
  }

  /** The line whose span (text and ending) holds the byte offset `index`. */
  function LineOf(lines: seq<DocLine>, index: nat): (r: nat)
    requires index < LinesBytes(lines)
    ensures r < |lines|
    ensures LinesBytes(lines[..r]) <= index < LinesBytes(lines[..r]) + SpanLen(lines[r])
  {
    var n := |lines| - 1;
    assert lines[..n + 1] == lines;
    if index < LinesBytes(lines[..n]) then
      var r := LineOf(lines[..n], index);
      assert lines[..n][..r] == lines[..r];
      r
    else n
  }

  /** Spans do not overlap: the line whose span holds an offset is unique. */
  lemma LineOfUnique(lines: seq<DocLine>, index: nat, r: nat)
    requires r < |lines|
    requires LinesBytes(lines[..r]) <= index < LinesBytes(lines[..r]) + SpanLen(lines[r])
    ensures index < LinesBytes(lines) && LineOf(lines, index) == r
  {
    LinesBytesMonotone(lines, r, |lines|);
    assert lines[..|lines|] == lines;
    var q := LineOf(lines, index);
    if q < r {
      LinesBytesMonotone(lines, q, r);
    } else if q > r {
      LinesBytesMonotone(lines, r, q);
    }
  }

  /**
   * What `byte_index_to_position` returns. An offset inside a line's span
   * maps to that line, at the char count of the line's text up to the
   * offset, clamped to the text (so offsets inside the ending map to the
   * end of the text); `None` stands for the panic when that clamped offset
   * splits a char. An offset at or past the end maps to the end of the last
   * line, or to (0, 0) when there are no lines.
   */
  function PositionAt(lines: seq<DocLine>, index: nat): Option<Position>
  {
    if index < LinesBytes(lines) then
      var i := LineOf(lines, index);
      ColumnIn(lines, i, index)
    else if |lines| == 0 then Some(Position(0, 0))
    else Some(Position(|lines| - 1, |lines[|lines| - 1].text|))
  }

  /** The position of an offset inside line `i`'s span, or `None` when the clamped offset splits a char. */
  function ColumnIn(lines: seq<DocLine>, i: nat, index: nat): Option<Position>
    requires i < |lines| && LinesBytes(lines[..i]) <= index
  {
    var text := lines[i].text;
    match CharIndex(text, Min(index - LinesBytes(lines[..i]), ByteLen(text)))
    case None => None
    case Some(column) => Some(Position(i, column))
  }

  /** An offset inside line `i`'s span is resolved within line `i`. */
  lemma PositionAtInSpan(lines: seq<DocLine>, i: nat, index: nat)
    requires i < |lines|
    requires LinesBytes(lines[..i]) <= index < LinesBytes(lines[..i]) + SpanLen(lines[i])
    ensures PositionAt(lines, index) == ColumnIn(lines, i, index)
  {
    LineOfUnique(lines, index, i);
  }

  /** `byte_index_to_position`: walk the lines until the one whose span holds the offset. */
  method ByteIndexToPosition(lines: seq<DocLine>, index: nat) returns (pos: Option<Position>)
    ensures pos == PositionAt(lines, index)
  {
    var currentOffset := 0;
    var i := 0;
    while i < |lines|
      invariant i <= |lines|
      invariant currentOffset == LinesBytes(lines[..i]) <= index
    {
      var totalBytes := ByteLen(lines[i].text) + ByteLen(lines[i].ending);
      if index < currentOffset + totalBytes {
        break;
      }
      assert lines[..i + 1][..i] == lines[..i];
      currentOffset := currentOffset + totalBytes;
      i := i + 1;
    }
    if i < |lines| {
      PositionAtInSpan(lines, i, index);
      var effectiveOffset := Min(index - currentOffset, ByteLen(lines[i].text));
      var column := CharIndex(lines[i].text, effectiveOffset);
      if column.None? {
        return None;
      }
      return Some(Position(i, column.value));
    }
    assert lines[..i] == lines;
    if |lines| > 0 {
      return Some(Position(|lines| - 1, |lines[|lines| - 1].text|));
    }
    return Some(Position(0, 0));
  }

  /** Every offset inside a line's ending maps to the end of that line's text. */
  lemma EndingMapsToLineEnd(lines: seq<DocLine>, i: nat, index: nat)
    requires i < |lines|
    requires LinesBytes(lines[..i]) + ByteLen(lines[i].text) <= index < LinesBytes(lines[..i]) + SpanLen(lines[i])
    ensures PositionAt(lines, index) == Some(Position(i, |lines[i].text|))
  {
    PositionAtInSpan(lines, i, index);
    var text := lines[i].text;
    assert text[..|text|] == text;
    CharIndexOfPrefix(text, |text|);
  }

  /** Every line but the last ends in a line break. */
  predicate WellFormed(lines: seq<DocLine>)
  {
    forall i :: 0 <= i < |lines| - 1 ==> |lines[i].ending| > 0
  }

  /** The position a position stands for: its column clamped to its line, or the document's end for a line past the end. */
  function Clamp(lines: seq<DocLine>, pos: Position): Position
  {
    if pos.line < |lines| then Position(pos.line, Min(pos.column, |lines[pos.line].text|))
    else if |lines| == 0 then Position(0, 0)
    else Position(|lines| - 1, |lines[|lines| - 1].text|)
  }

  /** Converting a position to an offset and back gives the clamped position. */
  lemma PositionRoundTrip(lines: seq<DocLine>, pos: Position)
    requires WellFormed(lines)
    ensures PositionAt(lines, PositionOffset(lines, pos)) == Some(Clamp(lines, pos))
  {
    if pos.line < |lines| {
      var l := pos.line;
      var text := lines[l].text;
      var c := Min(pos.column, |text|);
      var index := PositionOffset(lines, pos);
      PrefixBytes(text, c);
      if index < LinesBytes(lines[..l]) + SpanLen(lines[l]) {
        PositionAtInSpan(lines, l, index);
        CharIndexOfPrefix(text, c);
      } else {
        assert c == |text|;
        assert l == |lines| - 1;
        assert lines[..l + 1] == lines;
      }
    }
  }
}
