// `CustomTextInput` (src/ui/custom_text_input.rs): a single-line input that
// keeps its value, a cursor and a selection counted in chars, a snapshot
// history for undo and redo with time-based grouping, and splits its value
// into plain and `{{variable}}` segments for highlighting. Clock reads are
// a `now` parameter in milliseconds; the cursor-blink, tooltip and styling
// fields only affect drawing and are not part of this model.

module CustomTextInput {
  import opened Wrappers
  import opened Strings
  import opened Segments
  import opened Snapshots

  /** `max_history` of the default input. */
  const MaxHistory: nat := 100

  /** `grouping_threshold_ms` of the default input. */
  const GroupingThresholdMs: nat := 500

  /** A snapshot: the value with the cursor and selection it had, and when it was taken. */
  datatype HistoryEntry = HistoryEntry(value: string, cursorPosition: nat, selection: Option<(nat, nat)>, timestamp: nat)

  /** `duration_since` in whole milliseconds, which is zero when `earlier` is in fact later. */
  function Elapsed(now: nat, earlier: nat): (d: nat)
    ensures earlier <= now ==> earlier + d == now
    ensures now < earlier ==> d == 0
  {
    if earlier <= now then now - earlier else 0
  }

  /** A selection's ends in increasing order. */
  function Normalized(sel: (nat, nat)): (r: (nat, nat))
    ensures r.0 <= r.1
    ensures (r.0 == sel.0 && r.1 == sel.1) || (r.0 == sel.1 && r.1 == sel.0)
  {
    if sel.0 <= sel.1 then sel else (sel.1, sel.0)
  }

  /** A change at `now` is grouped with the current entry: it is the last one and was taken less than the threshold ago. */
  predicate Groups(h: seq<HistoryEntry>, index: nat, now: nat)
    requires index < |h|
  {
    Elapsed(now, h[index].timestamp) < GroupingThresholdMs && index == |h| - 1
  }

  /**
   * The history after `push_to_history` records `e`: a grouped change
   * overwrites the last entry; otherwise the entries after the index are
   * dropped, `e` is appended and the oldest entry goes once more than
   * `MaxHistory` remain. Either way `e` ends up last.
   */
  function Recorded(h: seq<HistoryEntry>, index: nat, e: HistoryEntry): (r: seq<HistoryEntry>)
    requires index < |h| <= MaxHistory
    ensures 1 <= |r| <= MaxHistory && r[|r| - 1] == e
    ensures Groups(h, index, e.timestamp) ==> |r| == |h| && r[..|r| - 1] == h[..|h| - 1]
    ensures !Groups(h, index, e.timestamp) && index + 1 < MaxHistory ==> |r| == index + 2 && r[..index + 1] == h[..index + 1]
    ensures !Groups(h, index, e.timestamp) && index + 1 == MaxHistory ==> |r| == MaxHistory && r[..MaxHistory - 1] == h[1..]
  {
    if Groups(h, index, e.timestamp) then
      assert h[index := e][..|h| - 1] == h[..|h| - 1];
      h[index := e]
    else
      AppendedWithinCap(h, index, e, MaxHistory);
      Appended(h, index, e, MaxHistory)
  }

  /** The selection, if any, ends within the value, so that draining it does not panic. */
  predicate SelectionFits(v: string, sel: Option<(nat, nat)>)
  {
    sel.Some? ==> Normalized(sel.value).1 <= |v|
  }

  /**
   * `insert_text` panics: the selection reaches past the end, or there is
   * no selection, the cursor lies past the end and there is text to insert.
   */
  predicate InsertPanics(v: string, sel: Option<(nat, nat)>, cursor: nat, text: string)
  {
    !SelectionFits(v, sel) || (sel.None? && |text| > 0 && cursor > |v|)
  }

  /** Where the cursor lands and what the chars are once the selection, if any, is removed: the normalised range goes and the cursor moves to its start. */
  function WithoutSelection(v: string, sel: Option<(nat, nat)>, cursor: nat): (r: (string, nat))
    requires SelectionFits(v, sel)
    ensures sel.None? ==> r == (v, cursor)
    ensures sel.Some? ==> var (lo, hi) := Normalized(sel.value);
      r.1 == lo && |r.0| == |v| - (hi - lo) && r.0[..lo] == v[..lo] && r.0[lo..] == v[hi..]
  {
    match sel
    case None => (v, cursor)
    case Some(s) =>
      var (lo, hi) := Normalized(s);
      (v[..lo] + v[hi..], lo)
  }

  /**
   * What `parse_text_segments` returns: one plain segment over the whole
   * value when highlighting is off; otherwise the scan of the value, or a
   * single empty plain segment when the scan yields nothing.
   */
  function Highlighted(value: string, enabled: bool): (r: seq<Segment>)
  {
    if !enabled then [Segment(value, Normal, 0, ByteLen(value))]
    else if |value| == 0 then [Segment([], Normal, 0, 0)]
    else Scan(value, 0)
  }

  /**
   * The segments always spell out the value in order at their byte offsets
   * and are never empty as a list; with highlighting on and a non-empty
   * value, the Variable segments are exactly the leftmost `{{name}}`
   * matches and no segment is empty.
   */
  lemma HighlightedProperties(value: string, enabled: bool)
    ensures |Highlighted(value, enabled)| >= 1
    ensures Tiles(Highlighted(value, enabled), value, 0)
    ensures enabled && |value| > 0 ==>
      Leftmost(Highlighted(value, enabled), value) && Separated(Highlighted(value, enabled))
  {
    if enabled && |value| > 0 {
      ScanTiles(value, 0);
      ScanLeftmost(value, 0);
      ScanSeparated(value, 0);
      assert value[0..] == value && value[..0] == [];
    } else {
      var g := Highlighted(value, enabled)[0];
      assert value[..|g.text|] == value && value[|g.text|..] == [];
      assert Tiles(Highlighted(value, enabled)[1..], value[|g.text|..], g.end);
    }
  }

  class Input {
    var value: string
    var isFocused: bool
    var cursorPosition: nat
    var selection: Option<(nat, nat)>
    var history: seq<HistoryEntry>
    var historyIndex: nat
    var highlighting: bool

    /** The history is never empty, within its cap, and the index points into it. */
    predicate Valid()
      reads this
    {
      1 <= |history| <= MaxHistory && historyIndex < |history|
    }

    /** The value is the one the current history entry holds; every edit and undo or redo keeps this, while `with_value` and `set_value_without_history` may break it. */
    predicate Synced()
      reads this
      requires Valid()
    {
      value == history[historyIndex].value
    }

    /** `CustomTextInput::default`: empty and unfocused, one empty snapshot taken at `now`, highlighting on. */
    constructor (now: nat)
      ensures Valid() && Synced()
      ensures value == [] && !isFocused && cursorPosition == 0 && selection == None
      ensures history == [HistoryEntry([], 0, None, now)] && historyIndex == 0 && highlighting
    {
      value := [];
      isFocused := false;
      cursorPosition := 0;
      selection := None;
      history := [HistoryEntry([], 0, None, now)];
      historyIndex := 0;
      highlighting := true;
    }

    /** `with_value`: sets the value alone; the cursor and the history stay as they were. */
    method WithValue(v: string)
      modifies this
      ensures value == v
      ensures unchanged(this`isFocused, this`cursorPosition, this`selection, this`history, this`historyIndex, this`highlighting)
    {
      value := v;
    }

    /** `with_syntax_highlighting`. */
    method WithSyntaxHighlighting(enabled: bool)
      modifies this
      ensures highlighting == enabled
      ensures unchanged(this`value, this`isFocused, this`cursorPosition, this`selection, this`history, this`historyIndex)
    {
      highlighting := enabled;
    }

    /** `push_to_history`: records the value with the current cursor and selection at `now`, and points the index at it. */
    method PushToHistory(v: string, now: nat)
      requires Valid()
      modifies this
      ensures Valid()
      ensures history == Recorded(old(history), old(historyIndex), HistoryEntry(v, cursorPosition, selection, now))
      ensures historyIndex == |history| - 1
      ensures unchanged(this`value, this`isFocused, this`cursorPosition, this`selection, this`highlighting)
    {
      var entry := HistoryEntry(v, cursorPosition, selection, now);
      var elapsed := Elapsed(now, history[historyIndex].timestamp);
      if elapsed < GroupingThresholdMs && historyIndex == |history| - 1 {
        history := history[historyIndex := entry];
        return;
      }
      if historyIndex < |history| - 1 {
        history := history[..historyIndex + 1];
      }
      history := history + [entry];
      historyIndex := |history| - 1;
      if |history| > MaxHistory {
        history := history[1..];
        historyIndex := |history| - 1;
      }
    }

    /** The cursor clamped to the value's char count, as `set_value` and `set_value_without_history` leave it. */
    method ClampCursor()
      modifies this`cursorPosition
      ensures cursorPosition == if old(cursorPosition) > |value| then |value| else old(cursorPosition)
    {
      if cursorPosition > |value| {
        cursorPosition := |value|;
      }
    }

    /** `set_value`: a different value is recorded (with the cursor it had) before it replaces the old one; then the cursor is clamped to it. */
    method SetValue(v: string, now: nat)
      requires Valid()
      modifies this
      ensures Valid() && value == v
      ensures old(Synced()) || v != old(value) ==> Synced()
      ensures v != old(value) ==>
        history == Recorded(old(history), old(historyIndex), HistoryEntry(v, old(cursorPosition), old(selection), now))
        && historyIndex == |history| - 1
      ensures v == old(value) ==> history == old(history) && historyIndex == old(historyIndex)
      ensures cursorPosition <= |v| && (old(cursorPosition) <= |v| ==> cursorPosition == old(cursorPosition))
      ensures unchanged(this`isFocused, this`selection, this`highlighting)
    {
      if v != value {
        PushToHistory(v, now);
      }
      value := v;
      ClampCursor();
    }

    /** `set_value_without_history`: the value changes and the cursor is clamped; the history is not touched. */
    method SetValueWithoutHistory(v: string)
      modifies this
      ensures value == v
      ensures cursorPosition <= |v| && (old(cursorPosition) <= |v| ==> cursorPosition == old(cursorPosition))
      ensures unchanged(this`isFocused, this`selection, this`history, this`historyIndex, this`highlighting)
    {
      value := v;
      ClampCursor();
    }

    method Focus()
      modifies this`isFocused
      ensures isFocused
    {
      isFocused := true;
    }

    /** `unfocus` also drops the selection. */
    method Unfocus()
      modifies this`isFocused, this`selection
      ensures !isFocused && selection == None
    {
      isFocused := false;
      selection := None;
    }

    /** `move_cursor_to`: the cursor goes to `position`, clamped to the char count, and the selection is dropped. */
    method MoveCursorTo(position: nat)
      modifies this`cursorPosition, this`selection
      ensures cursorPosition <= |value| && selection == None
      ensures position <= |value| ==> cursorPosition == position
      ensures position > |value| ==> cursorPosition == |value|
    {
      cursorPosition := if position < |value| then position else |value|;
      selection := None;
    }

    method MoveCursorToFront()
      modifies this`cursorPosition, this`selection
      ensures cursorPosition == 0 && selection == None
    {
      MoveCursorTo(0);
    }

    method MoveCursorToEnd()
      modifies this`cursorPosition, this`selection
      ensures cursorPosition == |value| && selection == None
    {
      MoveCursorTo(|value|);
    }

    /** `move_cursor_left`: one char back and the selection dropped, unless the cursor is already at the start. */
    method MoveCursorLeft()
      modifies this`cursorPosition, this`selection
      ensures old(cursorPosition) > 0 ==> cursorPosition + 1 == old(cursorPosition) && selection == None
      ensures old(cursorPosition) == 0 ==> cursorPosition == 0 && selection == old(selection)
    {
      if cursorPosition > 0 {
        cursorPosition := cursorPosition - 1;
        selection := None;
      }
    }

    /** `move_cursor_right`: one char forward and the selection dropped, unless the cursor is already at the end. */
    method MoveCursorRight()
      modifies this`cursorPosition, this`selection
      ensures old(cursorPosition) < |value| ==> cursorPosition == old(cursorPosition) + 1 && selection == None
      ensures old(cursorPosition) >= |value| ==> cursorPosition == old(cursorPosition) && selection == old(selection)
    {
      if cursorPosition < |value| {
        cursorPosition := cursorPosition + 1;
        selection := None;
      }
    }

    /** `select_all`: a non-empty value is selected whole with the cursor at its end; an empty one leaves everything as it was. */
    method SelectAll()
      modifies this`cursorPosition, this`selection
      ensures |value| > 0 ==> selection.Some? && selection.value.0 == 0 && selection.value.1 == |value| && cursorPosition == |value|
      ensures |value| == 0 ==> selection == old(selection) && cursorPosition == old(cursorPosition)
    {
      if |value| > 0 {
        selection := Some((0, |value|));
        cursorPosition := |value|;
      }
    }

    /**
     * `undo`: at the first entry it reports false and changes nothing;
     * otherwise the index moves back one and that entry's value, cursor and
     * selection are restored.
     */
    method Undo() returns (done: bool)
      requires Valid()
      modifies this
      ensures Valid() && done == (old(historyIndex) > 0)
      ensures done ==> (historyIndex + 1 == old(historyIndex) && Synced()
        && cursorPosition == history[historyIndex].cursorPosition && selection == history[historyIndex].selection)
      ensures !done ==> unchanged(this`value, this`cursorPosition, this`selection, this`historyIndex)
      ensures unchanged(this`history, this`isFocused, this`highlighting)
    {
      if historyIndex > 0 {
        historyIndex := historyIndex - 1;
        var entry := history[historyIndex];
        SetValueWithoutHistory(entry.value);
        cursorPosition := entry.cursorPosition;
        selection := entry.selection;
        return true;
      }
      return false;
    }

    /**
     * `redo`: at the last entry it reports false and changes nothing;
     * otherwise the index moves forward one and that entry's value, cursor
     * and selection are restored.
     */
    method Redo() returns (done: bool)
      requires Valid()
      modifies this
      ensures Valid() && done == (old(historyIndex) + 1 < |history|)
      ensures done ==> (historyIndex == old(historyIndex) + 1 && Synced()
        && cursorPosition == history[historyIndex].cursorPosition && selection == history[historyIndex].selection)
      ensures !done ==> unchanged(this`value, this`cursorPosition, this`selection, this`historyIndex)
      ensures unchanged(this`history, this`isFocused, this`highlighting)
    {
      if historyIndex < |history| - 1 {
        historyIndex := historyIndex + 1;
        var entry := history[historyIndex];
        SetValueWithoutHistory(entry.value);
        cursorPosition := entry.cursorPosition;
        selection := entry.selection;
        return true;
      }
      return false;
    }

    /** `can_undo` holds exactly when `undo` would move. */
    function CanUndo(): (b: bool)
      reads this
      ensures b <==> historyIndex > 0
    {
      historyIndex > 0
    }

    /** `can_redo` holds exactly when `redo` would move. */
    function CanRedo(): (b: bool)
      reads this
      requires Valid()
      ensures b <==> historyIndex + 1 < |history|
    {
      historyIndex < |history| - 1
    }

    /**
     * `insert_text`: a selection is removed first and the cursor goes to
     * its start; then `text` is inserted at the cursor, the cursor moves
     * past it, and the new value is recorded (with that cursor, no
     * selection) and returned. `None` stands for the panic of the Rust
     * code: the selection's `drain` panics when the selection reaches past
     * the end, and `chars.insert` when the cursor lies past the end and
     * there is text to insert; nothing is changed then.
     */
    method InsertText(text: string, now: nat) returns (newValue: Option<string>)
      requires Valid()
      modifies this
      ensures newValue.None? <==> InsertPanics(old(value), old(selection), old(cursorPosition), text)
      ensures newValue.None? ==>
        unchanged(this`value, this`cursorPosition, this`selection, this`history, this`historyIndex)
      ensures Valid() && unchanged(this`isFocused, this`highlighting)
      ensures newValue.Some? ==>
        Synced() && value == newValue.value && selection == None
        && history == Recorded(old(history), old(historyIndex), HistoryEntry(newValue.value, cursorPosition, None, now))
      ensures newValue.Some? ==> var (base, at) := WithoutSelection(old(value), old(selection), old(cursorPosition));
        (at <= |base| ==>
          |newValue.value| == |base| + |text|
          && newValue.value[..at] == base[..at] && newValue.value[at..at + |text|] == text
          && newValue.value[at + |text|..] == base[at..]
          && cursorPosition == at + |text|)
        && (at > |base| ==> text == [] && newValue.value == base && cursorPosition == at)
    {
      if InsertPanics(value, selection, cursorPosition, text) {
        return None;
      }
      var chars := value;
      if selection.Some? {
        var (lo, hi) := Normalized(selection.value);
        chars := chars[..lo] + chars[hi..];
        cursorPosition := lo;
        selection := None;
      }
      if cursorPosition <= |chars| {
        chars := chars[..cursorPosition] + text + chars[cursorPosition..];
      }
      cursorPosition := cursorPosition + |text|;
      PushToHistory(chars, now);
      value := chars;
      newValue := Some(chars);
    }

    /**
     * `delete_previous`: removes the selection if any (the cursor moving to
     * its start), else the char before the cursor (moving the cursor back),
     * else nothing; a change of value is recorded. `None` stands for the
     * panic of the Rust code, of `drain` on a selection reaching past the
     * end or of `remove` on a cursor past the end; nothing is changed then.
     */
    method DeletePrevious(now: nat) returns (newValue: Option<string>)
      requires Valid()
      modifies this
      ensures newValue.None? <==>
        !SelectionFits(old(value), old(selection)) || (old(selection).None? && old(cursorPosition) > |old(value)|)
      ensures newValue.None? ==>
        unchanged(this`value, this`cursorPosition, this`selection, this`history, this`historyIndex)
      ensures Valid() && unchanged(this`isFocused, this`highlighting)
      ensures newValue.Some? ==> value == newValue.value && selection == None
      ensures newValue.Some? && old(selection).Some? ==>
        (newValue.value, cursorPosition) == WithoutSelection(old(value), old(selection), old(cursorPosition))
      ensures newValue.Some? && old(selection).None? && old(cursorPosition) > 0 ==>
        cursorPosition + 1 == old(cursorPosition)
        && newValue.value == old(value)[..cursorPosition] + old(value)[cursorPosition + 1..]
      ensures newValue.Some? && old(selection).None? && old(cursorPosition) == 0 ==> newValue.value == old(value) && cursorPosition == 0
      ensures newValue.Some? && newValue.value != old(value) ==>
        history == Recorded(old(history), old(historyIndex), HistoryEntry(newValue.value, cursorPosition, None, now)) && Synced()
      ensures newValue.Some? && newValue.value == old(value) ==> history == old(history) && historyIndex == old(historyIndex)
      ensures old(Synced()) ==> Synced()
    {
      if !SelectionFits(value, selection) || (selection.None? && cursorPosition > |value|) {
        return None;
      }
      var oldValue := value;
      if selection.Some? {
        var (lo, hi) := Normalized(selection.value);
        value := value[..lo] + value[hi..];
        cursorPosition := lo;
        selection := None;
      } else if cursorPosition > 0 {
        value := value[..cursorPosition - 1] + value[cursorPosition..];
        cursorPosition := cursorPosition - 1;
      }
      if value != oldValue {
        PushToHistory(value, now);
      }
      newValue := Some(value);
    }

    /**
     * `delete_next`: removes the selection (the cursor moving to its start)
     * or else the char at the cursor (the cursor staying put); a change of
     * value is recorded. `None` stands for the panic of `drain` on a
     * selection reaching past the end; nothing is changed then.
     */
    method DeleteNext(now: nat) returns (newValue: Option<string>)
      requires Valid()
      modifies this
      ensures newValue.None? <==> !SelectionFits(old(value), old(selection))
      ensures newValue.None? ==>
        unchanged(this`value, this`cursorPosition, this`selection, this`history, this`historyIndex)
      ensures Valid() && unchanged(this`isFocused, this`highlighting)
      ensures newValue.Some? ==> value == newValue.value && selection == None
      ensures newValue.Some? && old(selection).Some? ==>
        (newValue.value, cursorPosition) == WithoutSelection(old(value), old(selection), old(cursorPosition))
      ensures newValue.Some? && old(selection).None? && old(cursorPosition) < |old(value)| ==>
        cursorPosition == old(cursorPosition)
        && newValue.value == old(value)[..cursorPosition] + old(value)[cursorPosition + 1..]
      ensures newValue.Some? && old(selection).None? && old(cursorPosition) >= |old(value)| ==>
        newValue.value == old(value) && cursorPosition == old(cursorPosition)
      ensures newValue.Some? && newValue.value != old(value) ==>
        history == Recorded(old(history), old(historyIndex), HistoryEntry(newValue.value, cursorPosition, None, now)) && Synced()
      ensures newValue.Some? && newValue.value == old(value) ==> history == old(history) && historyIndex == old(historyIndex)
      ensures old(Synced()) ==> Synced()
    {
      if !SelectionFits(value, selection) {
        return None;
      }
      var oldValue := value;
      if selection.Some? {
        var (lo, hi) := Normalized(selection.value);
        value := value[..lo] + value[hi..];
        cursorPosition := lo;
        selection := None;
      } else if cursorPosition < |value| {
        value := value[..cursorPosition] + value[cursorPosition + 1..];
      }
      if value != oldValue {
        PushToHistory(value, now);
      }
      newValue := Some(value);
    }

    /** `parse_text_segments`: the segments to highlight, as `Highlighted` describes them. */
    method ParseTextSegments() returns (segments: seq<Segment>)
      ensures segments == Highlighted(value, highlighting)
      ensures |segments| >= 1 && Tiles(segments, value, 0)
      ensures highlighting && |value| > 0 ==> Leftmost(segments, value) && Separated(segments)
    {
      HighlightedProperties(value, highlighting);
      if !highlighting {
        return [Segment(value, Normal, 0, ByteLen(value))];
      }
      segments := ScanVariables(value);
      if |segments| == 0 {
        ScanSeparated(value, 0);
        segments := [Segment([], Normal, 0, 0)];
      }
    }
  }

  /**
   * The panics are reachable: `set_value` records the cursor it had before
   * clamping it, so with "abcdef" typed and the cursor at its end,
   * `set_value("ab")`, undo and redo leave the cursor at 6 on "ab", and
   * typing a char then panics.
   */
  method StaleCursorAfterRedo() returns (typed: Option<string>)
    ensures typed == None
  {
    var input := new Input(0);
    input.SetValue("abcdef", 1000);
    input.MoveCursorToEnd();
    input.SetValue("ab", 2000);
    var undone := input.Undo();
    var redone := input.Redo();
    assert input.cursorPosition == 6 && input.value == "ab";
    typed := input.InsertText("x", 3000);
  }

  /**
   * `set_value` keeps the selection: after selecting all of "abcdef" and
   * setting the value to "ab", the selection (0, 6) is stale and
   * backspace panics.
   */
  method StaleSelectionAfterSetValue() returns (deleted: Option<string>)
    ensures deleted == None
  {
    var input := new Input(0);
    input.SetValue("abcdef", 1000);
    input.SelectAll();
    input.SetValue("ab", 2000);
    deleted := input.DeletePrevious(3000);
  }

  /** Undo followed by redo returns to the same entry and, on a synced input, to the same value. */
  method UndoThenRedo(input: Input)
    requires input.Valid() && input.Synced() && input.CanUndo()
    modifies input
    ensures input.Valid() && input.Synced()
    ensures input.history == old(input.history) && input.historyIndex == old(input.historyIndex)
    ensures input.value == old(input.value)
  {
    var undone := input.Undo();
    var redone := input.Redo();
  }
}
