# Beam core, modelled and verified in Dafny

Beam is a desktop HTTP client written in Rust on the iced toolkit. A user
keeps requests in numbered folders on disk. They edit a request's URL,
headers, parameters, body and authentication in a request panel, send it,
and read and search the response in a response panel. Text fields and
editors have undo and redo.

This project models the parts of Beam that decide things, and proves what
they promise. The iced widgets, the network, the filesystem and the
clocks stay outside. Each source file becomes one or more Dafny modules:

- **Undo and redo.** `History` is the generic two-stack history with a
  size cap and command merging (`src/history/mod.rs`), modelled as a class.
  `TextInputCommand` and `TextEditorCommand` are its two command types,
  over a string and over a rope. `Rope` holds the rope operations they need.
  `Snapshots`, `CustomTextInput`, `ManagedTextInput`, `UrlInput` and
  `DemoApps` model the simpler snapshot histories of the text inputs and
  the two demo applications.
- **Editor geometry and keys.** `WidgetCalc` covers the layout helpers.
  `KeyChords` holds the undo/redo/find key interception shared by the two
  editor wrappers. `EditorView` covers the cache, gutter and search
  highlight of `src/ui/editor_view.rs`. `Undoable` covers the line-number
  gutter of `src/ui/undoable.rs`. `Overlay` covers the selection rectangle
  and the scroll offset that puts a match in the middle of the view.
- **Documents and search** (`src/main.rs`). `Document` converts between
  line/column positions and byte offsets. `Search` finds the next or
  previous match, with wrap-around. `AppState` holds the environment and
  rename handlers.
- **Strings.** `Segments` is the `{{variable}}` scanner, written by hand in
  place of the regular expression. `Http` covers the binary content-type
  test, the URL checks before sending, and the curl command. `FileStorage`
  and `Sorting` cover file-name sanitising, the four-digit numeric prefixes,
  the next free number, and the orders in which folders and requests are
  loaded.
- **Panels.** `RequestPanel` and `RequestContent` model the request panel,
  `ResponsePanel` and `ResponseContent` the response panel, and
  `Collections` the sidebar. Each panel is a class whose `Update` changes
  its fields and returns the action it hands back to the application.
  `Types` holds the shared data types.

Pixel values are `real`; they have no rounding and no NaN. Instants are
millisecond `nat`s passed in as parameters. Text measurement and the visual
rows of the editor are inputs. Where the Rust code relies on a fixed-width
integer wrapping around, the model writes the wrap-around out.

The source and its tests disagree in two places; the model follows the code:

- The test at `src/ui/widget_calc.rs:205-218` expects `(0, 20)` for column
  6. The glyph-wrap loop gives `(48, 0)`, which `WidgetCalc.WrapColumnSix`
  proves.
- The comment on the managed input's grouping threshold says 500 ms. The
  code sets 200 ms (`src/ui/managed_text_input.rs:36-46`), and the model
  uses 200.

`src/ui/request.rs` reads and writes a request's body format
(`body_format`, `BodyFormat`), but `src/types.rs` does not declare them.
`Types` adds the field and the type, with the variants `request.rs` matches on.

## Model

| member | source | states |
|---|---|---|
| History.PushedShape | src/history/mod.rs:41-57 | `Pushed`, the undo stack after `push`: a push either replaces the top command by the merge of it with the new one, or appends the new command after dropping the oldest one when the stack is at its cap; older commands keep their order |
| History.PushedWithinCap | src/history/mod.rs:41-57 | after a push the undo stack holds at least one command and never more than the cap (one command for a cap of zero) |
| History.History.constructor | src/history/mod.rs:24-30 | `new` starts with two empty stacks and a cap of 1000 |
| History.History.WithCapacity | src/history/mod.rs:32-39 | `with_capacity` starts with two empty stacks and the given cap |
| History.History.Push | src/history/mod.rs:41-57 | a push empties the redo stack and leaves the undo stack as `Pushed` describes, keeping both stacks within the cap |
| History.History.Undo | src/history/mod.rs:59-70 | undo reports whether there was a command; if so it moves the top command to the redo stack and reverts the state with it, otherwise nothing changes |
| History.History.Redo | src/history/mod.rs:72-83 | redo reports whether there was a command; if so it moves the top redo command back to the undo stack and re-executes it, otherwise nothing changes |
| History.History.CanUndo | src/history/mod.rs:85-87 | true exactly when the undo stack is non-empty |
| History.History.CanRedo | src/history/mod.rs:89-91 | true exactly when the redo stack is non-empty |
| History.UndoThenRedo | src/history/mod.rs:59-83 | undo followed by redo restores both stacks, and the state whenever `execute` inverts `undo` |
| TextInputCommand.ExecuteIsSplice | src/history/mod.rs:119-129 | `Execute` (`execute` of the three kinds): executing any command replaces the byte range of the text it removes by the text it inserts |
| TextInputCommand.UndoIsSplice | src/history/mod.rs:131-141 | `Undo` (`undo` of the three kinds): undoing any command replaces the byte range of the text it inserted by the text it removed |
| TextInputCommand.ExecuteAt | src/history/mod.rs:119-129 | a command whose offset is right after `a` turns `a + removed + b` into `a + inserted + b` |
| TextInputCommand.UndoAt | src/history/mod.rs:131-141 | a command whose offset is right after `a` turns `a + inserted + b` back into `a + removed + b` |
| TextInputCommand.MatchesAt | src/history/mod.rs:119-129 | a command placed right after `a` applies to every string where its removed text follows `a` |
| TextInputCommand.UndoAfterExecute | src/history/mod.rs:119-141 | executing a command that applies and then undoing it gives back the original string |
| TextInputCommand.RedoAfterUndo | src/history/mod.rs:119-141 | undo followed by redo leaves the executed string unchanged |
| TextInputCommand.MergeShape | src/history/mod.rs:143-222 | with offsets compared against byte lengths (`TryMerge`, the corrected merge of the first finding), two commands merge exactly when both are inserts or both deletes, the second is a single non-delimiter char less than 300 ms later, and it was typed right after the first text, or deleted right before the deleted span (backspace) or at its offset (delete key); a typed or delete-key char joins at the end, a backspaced one at the front with the merged delete starting at its offset, and the merge carries the second timestamp |
| TextInputCommand.MergedEqualsSequence | src/history/mod.rs:143-222 | with offsets compared in bytes, executing a merged command equals executing the two commands one after the other, on every string the first one applies to |
| TextInputCommand.MergeInserts | src/history/mod.rs:158-177 | typing right after an inserted text does what inserting the joined text does |
| TextInputCommand.MergeDeletes | src/history/mod.rs:189-217 | a backspace or delete-key press next to a deleted span does what deleting the joined span does |
| TextInputCommand.MergeBackspace | src/history/mod.rs:200-210 | a backspace right before a deleted span and the first deletion together delete `text2 + text1` at the backspace's offset |
| TextInputCommand.MergeDeleteKey | src/history/mod.rs:211-216 | a delete-key press at the offset of a deleted span and the first deletion together delete `text1 + text2` there |
| TextInputCommand.DeleteBackward | src/history/mod.rs:200-210 | a backspace right before a deleted span removes one contiguous range together with it |
| TextInputCommand.DeleteForward | src/history/mod.rs:211-216 | a delete-key press where a span was deleted removes the bytes that followed that span |
| TextInputCommand.AsWrittenMergeBreaksRedo | src/history/mod.rs:168-176 | `TryMergeAsWritten`, the merge as written: as written, pasting "éab" at 0 and typing "x" at byte 3 merge into one insert whose redo gives "éabx", while the two edits gave "éaxb" |
| TextInputCommand.CorrectedMergeRefusesSplitInsert | src/history/mod.rs:168-176 | comparing the offset with the byte length of the first text refuses to merge that pair |
| TextInputCommand.CommonPrefix | src/history/mod.rs:235-241 | the prefix length is the longest one on which the two strings agree |
| TextInputCommand.EditCommandFits | src/history/mod.rs:261-279 | `EditCommand`, the command built from a diff: the command chosen from the deleted and inserted middles applies to the old string and produces the new one |
| TextInputCommand.DiffToCommand | src/history/mod.rs:226-280 | None exactly for equal strings; otherwise a command placed at the byte length of the common prefix that applies to the old string and turns it into the new one |
| TextInputCommand.Parts | src/history/mod.rs:243-256 | cutting off a common prefix and suffix of two different strings leaves middles that are not both empty, and the strings are rebuilt from the three parts |
| TextInputCommand.PrefixIsCommon | src/history/mod.rs:235-241 | the prefix loop stops exactly at the common prefix |
| TextEditorCommand.ExecuteIndentLines | src/history/mod.rs:354-360 | the backwards loop over the listed lines computes what `execute` of `IndentLines` computes |
| TextEditorCommand.UndoIndentLines | src/history/mod.rs:378-385 | the backwards loop over the listed lines computes what `undo` of `IndentLines` computes |
| TextEditorCommand.CountPositive | src/history/mod.rs:354-360 | a line is indented at least once exactly when it is listed |
| TextEditorCommand.IndentedIsLines | src/history/mod.rs:354-360 | indenting with a break-free text keeps every line break-free |
| TextEditorCommand.IndentedStep | src/history/mod.rs:354-360 | indenting the last listed line first and then the others is indenting them all |
| TextEditorCommand.UnindentedStep | src/history/mod.rs:378-385 | undoing the indent of the last listed line leaves only the other listings indented |
| TextEditorCommand.IndentAllLines | src/history/mod.rs:354-360 | executing `IndentLines` prefixes each listed line with `added` once per listing and changes nothing else |
| TextEditorCommand.UnindentAllLines | src/history/mod.rs:378-385 | undoing `IndentLines` on the indented rope takes every added prefix off again |
| TextEditorCommand.UnindentLast | src/history/mod.rs:378-385 | undoing the indent of the last listed line leaves the rope with the other lines indented |
| TextEditorCommand.IndentLinesExecute | src/history/mod.rs:354-360 | on any rope whose listed lines exist, `IndentLines` prefixes each listed line with `added`, once per listing |
| TextEditorCommand.UndoAfterExecute | src/history/mod.rs:340-387 | `Execute` and `Undo`, the editor commands' `execute` and `undo`: undo after execute gives the rope back, for every kind of command that applies |
| TextEditorCommand.RedoAfterUndo | src/history/mod.rs:340-387 | redo after undo gives the rope back, for a rope holding what the command inserted |
| TextEditorCommand.Inverse | src/history/mod.rs:364-377 | the undo of an insert, delete or replace is itself a command whose execute is that undo and whose undo is that execute |
| TextEditorCommand.IndentRedoAfterUndo | src/history/mod.rs:354-385 | redo after undo of `IndentLines` gives back the indented rope |
| TextEditorCommand.MergeShape | src/history/mod.rs:389-459 | `TryMerge`, the editor commands' `try_merge`: a merge needs two inserts or two deletes, quick and free of line breaks; the merged command spans both cursors and takes the later timestamp |
| TextEditorCommand.MergeAccepts | src/history/mod.rs:389-459 | every quick, break-free pair of adjacent inserts, backspaces or delete-key presses is merged |
| TextEditorCommand.MergedEqualsSequence | src/history/mod.rs:389-459 | executing a merged command equals executing the two commands in turn, on every rope |
| TextEditorCommand.MergedUndoEqualsSequence | src/history/mod.rs:389-459 | undoing a merged command equals undoing the two commands, the later one first |
| Rope.Insert | src/history/mod.rs:342-344 | an insert at a char offset within the rope puts the text there; past the end it panics |
| Rope.Remove | src/history/mod.rs:345-348 | removing a range within the rope takes exactly those chars out; a reversed or overlong range panics |
| Rope.InsertTwice | src/history/mod.rs:412-416 | typing `t1` and then `t2` right after it is inserting `t1 + t2` |
| Rope.InsertSameSpot | src/history/mod.rs:449-453 | inserting `t2` and then `t1` at one place is inserting `t1 + t2` there |
| Rope.RemoveAdjacent | src/history/mod.rs:439-447 | removing `mid..end` and then `start..mid` is removing `start..end` |
| Rope.RemoveSameSpot | src/history/mod.rs:449-453 | removing `n1` chars and then `n2` more at the same offset is removing `n1 + n2` chars there |
| Rope.RemoveInserted | src/history/mod.rs:366-369 | removing what was just inserted gives the rope back |
| Rope.InsertRemoved | src/history/mod.rs:370-372 | inserting back what was just removed gives the rope back |
| Rope.LineToChar | src/history/mod.rs:357 | defined exactly for lines up to one past the number of line breaks; line 0 starts at 0, line `l` of those just past the `l`-th line break, the line after the last break at the end of the rope |
| Rope.SplitLines | src/history/mod.rs:354-360 | the lines of a rope hold no break and there is at least one |
| Rope.JoinSplitLines | src/history/mod.rs:354-360 | joining the lines of a rope gives it back |
| Rope.InsertAtLine | src/history/mod.rs:357-358 | inserting at the start of line `l` puts the text in front of that line and leaves the other lines alone |
| Rope.RemoveAtLine | src/history/mod.rs:382-383 | removing `|t|` chars at the start of a line that starts with `t` takes exactly `t` off that line |
| WidgetCalc.GutterWidthByDecade | src/ui/widget_calc.rs:15-18 | `GutterWidth`: the gutter is `d + 1` chars plus padding wide exactly for the line counts with `d` decimal digits |
| WidgetCalc.DigitsMonotone | src/ui/widget_calc.rs:16 | more lines never need fewer digits |
| WidgetCalc.GutterWidthMonotone | src/ui/widget_calc.rs:15-18 | the gutter never narrows as lines are added |
| WidgetCalc.GutterWidthExamples | src/ui/widget_calc.rs:119-138 | 5 and 9 lines give 21, 10 and 99 give 29, 100 and 999 give 37, 1000 gives 45 |
| WidgetCalc.Ceil | src/ui/widget_calc.rs:44 | the least integer not below `x` |
| WidgetCalc.EstimatedRows | src/ui/widget_calc.rs:44-45 | for any non-zero content width: at least one row, and the fewest rows whose width holds the text; a ratio that is not positive, as a negative width gives, is one row |
| WidgetCalc.LineHeight | src/ui/widget_calc.rs:31-47 | for any non-zero content width, a line of at most `max_chars` bytes is one row high; a longer one is a whole number of rows |
| WidgetCalc.LineHeightRows | src/ui/widget_calc.rs:38-46 | a line that does not fit gets at least one row and the fewest rows that hold its width |
| WidgetCalc.LineHeightAtLeastOneRow | src/ui/widget_calc.rs:31-47 | every line is at least one row high |
| WidgetCalc.LineHeightExamples | src/ui/widget_calc.rs:140-177 | a short line is one row high; 150 ASCII chars at 100 per row take two rows |
| WidgetCalc.StepsIsProduct | src/ui/widget_calc.rs:79-88 | adding `k` steps of `d` pixels one at a time is multiplying `d` by `k` |
| WidgetCalc.PenAfterSteps | src/ui/widget_calc.rs:74-90 | the pen's x is its glyphs into the row times the char width, its y its rows down times the line height |
| WidgetCalc.SimulateWordWrapPosition | src/ui/widget_calc.rs:63-91 | the loop returns the pen after the first `column` chars, and (0, 0) for column 0 |
| WidgetCalc.RowGlyphs | src/ui/widget_calc.rs:84-87 | a row holds at least one glyph and wraps right after the last one that keeps the next inside the content width |
| WidgetCalc.WrapsAt | src/ui/widget_calc.rs:84-87 | a row wraps after its `j`-th glyph exactly when `j` reaches the row's glyph count |
| WidgetCalc.WrapAfterClosedForm | src/ui/widget_calc.rs:79-88 | `n` glyphs leave the pen `n % p` glyphs into row `n / p`, for `p` glyphs per row |
| WidgetCalc.WrapColumnSix | src/ui/widget_calc.rs:192-218 | column 6 of "Hello world" with 8-pixel chars is at x = 48 on the first row, in an 800-pixel and in an 80-pixel row |
| WidgetCalc.WrapColumnTen | src/ui/widget_calc.rs:79-88 | column 10 of an 80-pixel row with 8-pixel chars is at the start of the second row |
| WidgetCalc.ViewportIsOverlap | src/ui/widget_calc.rs:103-112 | `IsLineInViewport`: for a row of positive height and a non-empty viewport, the test holds exactly when some point lies strictly inside both |
| WidgetCalc.ViewportExamples | src/ui/widget_calc.rs:242-319 | the visible, partly visible and hidden rows around a 50..200 viewport |
| KeyChords.Intercept | src/ui/editor_view.rs:220-271 | an event that is not intercepted is passed on to the wrapped widget unchanged |
| KeyChords.InterceptMatchesTable | src/ui/editor_view.rs:247-271 | a focused wrapper publishes exactly the action whose chord was pressed (Cmd+Z undo; Cmd+Y and Cmd+Shift+Z redo; Cmd+F find, with or without Shift) and forwards every other event; an unfocused one forwards everything |
| KeyChords.ChordsDisjoint | src/ui/undoable.rs:212-236 | no key press is the chord of two different actions, so the order of the arms does not matter |
| KeyChords.ShiftYIsForwarded | src/ui/undoable.rs:219-222 | Cmd+Shift+Y is not a redo chord and reaches the wrapped widget |
| EditorView.Abs | src/ui/editor_view.rs:371 | the absolute value is non-negative and is `x` or `-x` |
| EditorView.Cache.constructor | src/ui/editor_view.rs:47-59 | the default cache has no rows and zero widths, version and metrics |
| EditorView.Cache.MeasureOnce | src/ui/editor_view.rs:348-363 | the char metrics are taken only while no char width is cached, with the row height 1.3 times the text size; the rows are left alone |
| EditorView.Cache.Refresh | src/ui/editor_view.rs:365-393 | stale rows (width moved by more than 0.1, another version, or none) are rebuilt and the inputs recorded; otherwise nothing changes; after a refresh with a non-empty layout nothing is stale |
| EditorView.ShownMembers | src/ui/editor_view.rs:424-458 | a line number is shown exactly when some first visual row of that line overlaps the viewport |
| EditorView.ShownStopsBelow | src/ui/editor_view.rs:434-437 | when the rows run top to bottom, no row after one that lies below the viewport would be labelled |
| EditorView.DrawGutter | src/ui/editor_view.rs:424-458 | the gutter loop labels the visible first rows of some prefix of the rows, and all of them when the rows run top to bottom |
| EditorView.SaturatingUsize | src/ui/editor_view.rs:615 | the float-to-`usize` cast gives 0 for negative values, the maximum for too large ones and the value itself in between |
| EditorView.CharsPerRowFits | src/ui/editor_view.rs:614-618 | within range, the chars per row is the number of whole glyphs that fit in the content width: they fit and one more would not |
| EditorView.VisualPositionUnique | src/ui/editor_view.rs:620-629 | a column is laid out at the one (row, column-in-row) pair with the column-in-row below the row length |
| EditorView.FirstRowY | src/ui/editor_view.rs:568-573 | the offset of the first row of the first first-visual row of the line, and 0 when no row carries the line |
| EditorView.StepsBelow | src/ui/editor_view.rs:679-696 | a row count whose offset is still short of the target is below any count that reaches it |
| EditorView.MiddleRows | src/ui/editor_view.rs:678-696 | the middle rows are full-width, each one row further down, all more than half a pixel above the last row, and the loop stops at the first row that is not |
| EditorView.HighlightQuads | src/ui/editor_view.rs:640-713 | draws `HighlightLaidOut`: one rectangle between the two ends when they are less than a pixel apart vertically; otherwise the rest of the first row, full-width middle rows one row apart while more than half a pixel above the last row, and the start of the last row |
| EditorView.DrawSearchHighlight | src/ui/editor_view.rs:565-714 | a match spanning logical lines draws nothing; one within a line is laid out as `HighlightLaidOut` says, from the top of that line's first visual row plus the padding and one pixel, with each end at the measured place of its column's visual position on rows of `CharsPerRow` glyphs |
| Undoable.LineBoxHeight | src/ui/undoable.rs:355-371 | a line that fits in `max_chars` bytes is one line high; a longer one takes the larger of its measured height and one line |
| Undoable.DrawLineNumbers | src/ui/undoable.rs:340-398 | the loop draws the numbers `Numbers` lists and ends below every present line |
| Undoable.BottomAtLeast | src/ui/undoable.rs:348-397 | every present line moves the pen down by at least one line height; missing lines add nothing |
| Undoable.NumbersMembers | src/ui/undoable.rs:374-395 | line `i + 1` is numbered, at its top, exactly when it is present and its box overlaps the viewport |
| Undoable.NumbersBelow | src/ui/undoable.rs:348-395 | no number above the line count is drawn |
| Overlay.SelectionRect | src/ui/undoable.rs:436-485 | a selection on one line gets one rectangle on that line's band from the start column's edge to the end column's edge; a selection spanning lines draws nothing |
| Overlay.MatchScrollOffset | src/ui/response.rs:148-160 | the scroll offset is the larger of `y - 200` and zero |
| Overlay.MatchScrollOffsetMonotone | src/ui/request.rs:466-483 | a match further down never scrolls the view less, and a match in the top half of the viewport does not scroll it |
| Document.FlattenBytes | src/main.rs:2011 | the offsets the conversions add up are byte offsets into the document's text: each line's text and ending |
| Document.LinesBytesMonotone | src/main.rs:2011-2033 | line start offsets never decrease and a line ends no later than the next one starts |
| Document.PositionToByteIndex | src/main.rs:1994-2015 | the loop returns `PositionOffset`: the bytes of all earlier lines plus the bytes of the first `min(column, chars)` chars of the position's line, or the total for a line past the end |
| Document.LineOf | src/main.rs:2022-2034 | the line whose text-and-ending span holds a byte offset in the document |
| Document.LineOfUnique | src/main.rs:2022-2034 | spans do not overlap, so that line is the only one |
| Document.PositionAtInSpan | src/main.rs:2026-2033 | an offset inside a line's span is resolved within that line |
| Document.ByteIndexToPosition | src/main.rs:2018-2053 | the loop returns what `PositionAt` describes: the column of the offset clamped to its line's text, the end of the last line past the end, the origin for an empty document, and a panic where the clamped offset splits a char |
| Document.EndingMapsToLineEnd | src/main.rs:2028-2031 | every offset inside a line's ending maps to the end of that line's text |
| Document.PositionRoundTrip | src/main.rs:1994-2053 | for a well-formed document, a position turned into an offset and back is the position with its column clamped to its line (the end of the document for a line past the end) |
| Search.FindIn | src/main.rs:1790 | `find` on a slice gives the first occurrence lying wholly inside the slice |
| Search.RFindIn | src/main.rs:1804 | `rfind` on a slice gives the last occurrence lying wholly inside the slice |
| Search.ForwardAsWritten | src/main.rs:1766-1801 | as written: from one char past the current offset, the first occurrence lying after that point; when there is none, the first occurrence lying wholly before it; only real occurrences are reported |
| Search.ForwardAsWrittenRepeatsMatch | src/main.rs:1766-1801 | as written, with the first "ab" of "abab" selected (offset 2), the next search selects the same "ab" again instead of the one at 2 |
| Search.ForwardAsWrittenMissesMatch | src/main.rs:1766-1801 | as written, from offset 1 of "xaby" the search reports no match although "ab" starts at 1 |
| Search.Forward | src/main.rs:1787-1801 | corrected twin of the forward search (not used by `PerformSearch`, which keeps the code as written): finds a match exactly when the query occurs; the first one at or after the current offset, else the first one in the text |
| Search.Backward | src/main.rs:1802-1834 | the backward search reports only real occurrences, never one ending at the current offset; with no occurrence ending there it is the last one before the offset, else the last one after it; when one ends there (the selected match), it is the last occurrence lying wholly before that one, else the last one after the offset |
| Search.BackwardSkipsSelected | src/main.rs:1808-1826 | with the last "aa" of "aaaa" selected, the backward search passes over the overlapping one at 1 and selects the one at 0 |
| Search.PerformSearch | src/main.rs:1745-1872 | an empty query searches nothing; otherwise a reported match is a real occurrence whose end is its start plus the query length, found forward as `ForwardAsWritten` (the code as written, starting one char past the current offset) or backward as `Backward` describes |
| AppState.RepairActive | src/main.rs:931-937 | the active environment stays set exactly when it was set |
| AppState.Without | src/main.rs:930 | `Vec::remove` leaves one element fewer |
| AppState.RepairActiveKeepsSelection | src/main.rs:928-937 | after deleting from more than one environment the active index is in range, and deleting another environment keeps the same one active |
| AppState.RenameOutcome | src/main.rs:1634-1740 | a rename is applied exactly when the trimmed input is not blank, the target exists and no sibling has that name; it renames the target and nothing else |
| AppState.RenameKeepsNamesDistinct | src/main.rs:1649-1710 | collection names, and request names within a collection, that were distinct before a confirmed rename stay distinct |
| AppState.App.constructor | src/main.rs:220-240 | the application starts with no environments, none active, no collections and the rename modal closed |
| AppState.App.DeleteEnvironment | src/main.rs:928-937 | an in-range index of more than one environment is removed and the active index repaired; otherwise nothing changes; the active index stays valid |
| AppState.App.HideRenameModal | src/main.rs:1623-1629 | the modal closes and forgets its input and target; nothing else changes |
| AppState.App.ConfirmRename | src/main.rs:1634-1740 | an accepted rename is applied and closes the modal; a blank or duplicate name or a missing target changes nothing, the modal included |
| Segments.CloseFrom | src/ui/url_input.rs:247 | the first `}` at or after `k`, or the end of the text |
| Segments.VariableEnd | src/ui/url_input.rs:247 | a match starting at `i` spans at least five chars |
| Segments.VariableEndMatches | src/ui/url_input.rs:247-250 | the scanner finds a match from `i` to `e` exactly when that slice is a whole `{{name}}` with a name free of `}` |
| Segments.NextVariable | src/ui/url_input.rs:250 | the start of the leftmost match at or after `p`, with no match starting before it |
| Segments.ScanTiles | src/ui/url_input.rs:250-283 | the segments spell out the text in order, each starting at the byte where the previous one ended |
| Segments.ScanLeftmost | src/ui/url_input.rs:250-283 | the Variable segments are exactly the leftmost `{{name}}` matches; no match starts inside a plain segment |
| Segments.ScanSeparated | src/ui/url_input.rs:250-283 | no segment is empty, no two plain segments touch, and there are none exactly for an empty text |
| Segments.ScanStep | src/ui/url_input.rs:250-272 | one round of the loop pushes the plain run before the next match, then the match |
| Segments.ScanStop | src/ui/url_input.rs:274-282 | after the last match the rest of the text is one plain run |
| Segments.ScanVariables | src/ui/url_input.rs:246-285 | the highlighting loop returns the scan of the whole text |
| Segments.ScanWithoutVariables | src/ui/url_input.rs:274-282 | text with no match is a single plain segment, or none at all when empty |
| Snapshots.Appended | src/ui/custom_text_input.rs:240-254 | recording drops the entries after the index, appends the entry last, and drops the oldest entry when more than the cap remain |
| Snapshots.AppendedWithinCap | src/ui/custom_text_input.rs:240-254 | within the cap before, within the cap after; the history grows by one until it is full and then keeps its length |
| Snapshots.UndoIndex | src/ui/custom_text_input.rs:316-318 | undo moves one entry back unless already at the first |
| Snapshots.RedoIndex | src/ui/custom_text_input.rs:332-334 | redo moves one entry forward unless already at the last |
| Snapshots.UndoRedoInverse | src/ui/custom_text_input.rs:316-346 | a step back then forward, or forward then back, returns to the same entry |
| UrlInput.UrlSegments | src/ui/url_input.rs:232-285 | with highlighting off, one plain segment over the whole text; otherwise the scan of the text |
| UrlInput.UrlSegmentsProperties | src/ui/url_input.rs:232-285 | the segments spell out the text; with highlighting on they are the leftmost `{{name}}` matches and the plain runs between, non-empty and separated, none for an empty text and one plain segment for a text without a match |
| UrlInput.Input.constructor | src/ui/url_input.rs:102-122 | `new` keeps the value, turns highlighting on, caps the history at 50 and groups within 1000 ms, with an empty history |
| UrlInput.Input.Default | src/ui/url_input.rs:130-150 | `default` is empty, highlighted, capped at 100 and groups within 500 ms |
| UrlInput.Input.SetValue | src/ui/url_input.rs:228-230 | `set_value` replaces the value and nothing else |
| UrlInput.Input.SetMaxHistory | src/ui/url_input.rs:218-221 | the builder sets the cap and nothing else |
| UrlInput.Input.SetHighlighting | src/ui/url_input.rs:213-216 | the builder sets the highlighting switch |
| UrlInput.Input.ParseTextSegments | src/ui/url_input.rs:232-285 | the loop returns `UrlSegments` of the value, which tile it and, highlighted, are its leftmost matches |
| CustomTextInput.Elapsed | src/ui/custom_text_input.rs:227 | the time since an earlier instant, zero when that instant is in fact later |
| CustomTextInput.Normalized | src/ui/custom_text_input.rs:362 | a selection's two ends in increasing order |
| CustomTextInput.Recorded | src/ui/custom_text_input.rs:222-255 | a grouped change overwrites the last entry; otherwise the redo tail goes, the entry is appended and the oldest dropped past 100; either way the new entry is last and the cap holds |
| CustomTextInput.WithoutSelection | src/ui/custom_text_input.rs:360-366 | without a selection nothing changes; with one, its normalised range is removed and the cursor moves to its start |
| CustomTextInput.HighlightedProperties | src/ui/custom_text_input.rs:560-628 | `Highlighted`, the segments `parse_text_segments` returns: the segments are never an empty list and spell out the value; with highlighting on and a non-empty value they are its leftmost `{{name}}` matches and plain runs, none empty |
| CustomTextInput.Input.constructor | src/ui/custom_text_input.rs:121-150 | `default` is empty and unfocused with one empty snapshot and highlighting on |
| CustomTextInput.Input.WithValue | src/ui/custom_text_input.rs:169-172 | `with_value` sets the value alone |
| CustomTextInput.Input.WithSyntaxHighlighting | src/ui/custom_text_input.rs:462-465 | the builder sets the highlighting switch alone |
| CustomTextInput.Input.PushToHistory | src/ui/custom_text_input.rs:222-255 | the history becomes `Recorded` of the new entry with the current cursor and selection, and the index points at it |
| CustomTextInput.Input.ClampCursor | src/ui/custom_text_input.rs:204-208 | the cursor is clamped to the value's char count |
| CustomTextInput.Input.SetValue | src/ui/custom_text_input.rs:199-209 | a different value is recorded before it replaces the old one; the same value leaves the history alone; the cursor is clamped |
| CustomTextInput.Input.SetValueWithoutHistory | src/ui/custom_text_input.rs:212-219 | the value changes and the cursor is clamped; the history is untouched |
| CustomTextInput.Input.Focus | src/ui/custom_text_input.rs:263-268 | the input is focused |
| CustomTextInput.Input.Unfocus | src/ui/custom_text_input.rs:270-274 | the input is unfocused and the selection dropped |
| CustomTextInput.Input.MoveCursorTo | src/ui/custom_text_input.rs:276-282 | the cursor goes to the position clamped to the char count and the selection is dropped |
| CustomTextInput.Input.MoveCursorToFront | src/ui/custom_text_input.rs:285-287 | the cursor goes to 0 and the selection is dropped |
| CustomTextInput.Input.MoveCursorToEnd | src/ui/custom_text_input.rs:290-293 | the cursor goes to the end and the selection is dropped |
| CustomTextInput.Input.MoveCursorLeft | src/ui/custom_text_input.rs:441-449 | one char back and the selection dropped, unless already at the start |
| CustomTextInput.Input.MoveCursorRight | src/ui/custom_text_input.rs:451-460 | one char forward and the selection dropped, unless already at the end |
| CustomTextInput.Input.SelectAll | src/ui/custom_text_input.rs:296-302 | a non-empty value is selected whole with the cursor at its end; an empty one changes nothing |
| CustomTextInput.Input.Undo | src/ui/custom_text_input.rs:316-329 | at the first entry nothing changes and false is returned; otherwise one entry back, whose value, cursor and selection are restored |
| CustomTextInput.Input.Redo | src/ui/custom_text_input.rs:332-346 | at the last entry nothing changes and false is returned; otherwise one entry forward, restored the same way |
| CustomTextInput.Input.CanUndo | src/ui/custom_text_input.rs:348-350 | holds exactly when `undo` would move |
| CustomTextInput.Input.CanRedo | src/ui/custom_text_input.rs:353-355 | holds exactly when `redo` would move |
| CustomTextInput.Input.InsertText | src/ui/custom_text_input.rs:358-381 | panics (`None`, nothing changed) exactly when `InsertPanics` holds, that is when the selection reaches past the end, or when without a selection the cursor lies past the end and there is text to insert; otherwise the selection is removed first, the text inserted at the cursor, the cursor moved past it, and the new value recorded and returned |
| CustomTextInput.Input.DeletePrevious | src/ui/custom_text_input.rs:384-409 | panics (`None`, nothing changed) exactly when the selection reaches past the end or, without one, the cursor lies past the end; otherwise removes the selection, else the char before the cursor, else nothing; a changed value is recorded |
| CustomTextInput.Input.DeleteNext | src/ui/custom_text_input.rs:412-438 | panics (`None`, nothing changed) exactly when the selection reaches past the end; otherwise removes the selection, else the char at the cursor, else nothing; a changed value is recorded |
| CustomTextInput.StaleCursorAfterRedo | src/ui/custom_text_input.rs:199-209 | `set_value` records the unclamped cursor, so typing "abcdef", moving to the end, setting "ab", undo and redo leave the cursor at 6 on "ab" and the next `insert_text` panics |
| CustomTextInput.StaleSelectionAfterSetValue | src/ui/custom_text_input.rs:199-209 | `set_value` keeps the selection, so selecting all of "abcdef" and setting "ab" leaves the stale selection (0, 6) on which `delete_previous` panics |
| CustomTextInput.Input.ParseTextSegments | src/ui/custom_text_input.rs:560-628 | the segments `Highlighted` describes: never an empty list, spelling out the value, its leftmost matches when highlighted |
| CustomTextInput.UndoThenRedo | src/ui/custom_text_input.rs:316-346 | undo then redo returns to the same entry and, on a synced input, the same value |
| ManagedTextInput.WrappingSub | src/ui/managed_text_input.rs:76 | `u64` subtraction wraps modulo 2^64 |
| ManagedTextInput.BackwardsClockNeverGroups | src/ui/managed_text_input.rs:76-82 | a clock that went back by less than the whole `u64` range minus the threshold never groups |
| ManagedTextInput.Recorded | src/ui/managed_text_input.rs:66-94 | the redo tail goes first; a new entry within 200 ms of the last replaces it, otherwise it is appended and the oldest dropped past 50; the new entry is last |
| ManagedTextInput.Input.constructor | src/ui/managed_text_input.rs:36-46 | `new` has an empty value and one empty entry |
| ManagedTextInput.Input.WithValue | src/ui/managed_text_input.rs:48-53 | `with_value` restarts the history with the value as its only entry |
| ManagedTextInput.Input.PushToHistory | src/ui/managed_text_input.rs:66-94 | the history becomes `Recorded` of the new entry and the index points at it |
| ManagedTextInput.Input.SetValue | src/ui/managed_text_input.rs:55-60 | a different value replaces the old one and is recorded; the same value changes nothing |
| ManagedTextInput.Input.SetValueWithoutHistory | src/ui/managed_text_input.rs:62-64 | the value alone changes |
| ManagedTextInput.Input.Undo | src/ui/managed_text_input.rs:96-104 | false at the first entry; otherwise one entry back, whose value becomes the value |
| ManagedTextInput.Input.Redo | src/ui/managed_text_input.rs:106-114 | false at the last entry; otherwise one entry forward, whose value becomes the value |
| ManagedTextInput.Input.SetFocused | src/ui/managed_text_input.rs:116-118 | sets the focus flag |
| ManagedTextInput.UndoThenRedo | src/ui/managed_text_input.rs:96-114 | on a synced input, undo then redo returns to the same entry and value |
| DemoApps.KeyMessage | examples/custom_text_input_demo.rs:402-425 | Cmd+Shift+Z asks for redo, Cmd+Z without Shift for undo, any other event for nothing |
| DemoApps.App.constructor | examples/custom_text_input_demo.rs:38-55 | the initial text is the text, the widget's value and the only history entry |
| DemoApps.App.PushToHistory | examples/custom_text_input_demo.rs:237-252 | drops the redo tail, appends, caps at 50 by dropping the oldest, and points at the new entry |
| DemoApps.App.UndoStep | examples/custom_text_input_demo.rs:254-259 | one entry back and its text, unless already at the first |
| DemoApps.App.RedoStep | examples/custom_text_input_demo.rs:261-266 | one entry forward and its text, unless already at the last |
| DemoApps.App.CanUndo | examples/custom_text_input_demo.rs:268-270 | holds exactly when undo would move |
| DemoApps.App.CanRedo | examples/custom_text_input_demo.rs:272-274 | holds exactly when redo would move |
| DemoApps.App.Update | examples/custom_text_input_demo.rs:184-235 | a changed text is recorded and becomes the text; `Clear` always records an empty text; undo and redo move through the history and copy the text into the widget; the password and tooltip messages touch only their own fields; the text is always the current entry |
| DemoApps.UndoThenRedo | examples/url_input_demo.rs:89-98 | undo then redo gives back the same entry and text |
| Http.IsBinaryContentType | src/http.rs:6-32 | a content type is binary exactly when, lower-cased, it fails `IsTextContentType`: it is not in the `text/` family, not one of the four text application types and names no charset; the binary list changes nothing |
| Http.ToLowerIdempotent | src/http.rs:7 | lower-casing twice is lower-casing once |
| Http.BinaryIgnoresCase | src/http.rs:7 | the test does not depend on the case of the content type |
| Http.HtmlIsText | src/http.rs:10 | "Text/HTML" is text |
| Http.PngIsBinary | src/http.rs:20 | "image/png" is binary |
| Http.UnknownIsBinary | src/http.rs:30-31 | a type that neither list knows is binary |
| Http.CheckUrl | src/http.rs:37-46 | a URL is accepted exactly when it is not blank and starts with `http://` or `https://`; the blank message is given exactly for an all-whitespace URL |
| Http.CheckRequest | src/http.rs:37-61 | a request gets past the checks exactly when its URL is accepted and its method is not OPTIONS, which is refused with its own message |
| Http.EscapeQuotes | src/http.rs:250 | a body without a single quote is left as it is |
| Http.ReadEscaped | src/http.rs:250 | inside single quotes the escaped text reads back as the text, and reading goes on after the closing quote |
| Http.QuoteRoundTrip | src/http.rs:250 | a POSIX shell reads the quoted body back as exactly the body |
| Http.PlainQuoteBreaks | src/http.rs:212 | as written, a header value holding a single quote does not give one shell word |
| Http.PlainQuoteExact | src/http.rs:212 | for text without a single quote, the plain quoting of the header, auth and URL words equals the body's escaped quoting and reads back as exactly the text |
| Http.HeaderWord | src/http.rs:209-214 | corrected twin, not used by `GenerateCurlCommand`: a header word reads back as exactly `key: value` in a POSIX shell, because its quotes are escaped the way the body's are |
| Http.KeptPairs | src/http.rs:209-214 | only pairs with a non-empty key and value take part |
| Http.HeaderPartsSpec | src/http.rs:209-214 | each kept header gives exactly `-H` and the word `'key: value'` in plain single quotes, in order |
| Http.FullUrl | src/http.rs:254-269 | without parameters the URL is unchanged; otherwise the query string is joined with `&` after `?`, or after `&` when the URL already holds a `?` |
| Http.CurlTailHasNoMethodFlag | src/http.rs:208-271 | no argument after the method's is `-X` |
| Http.CurlShape | src/http.rs:199-271 | the command starts with `curl` and ends with the URL in plain single quotes, and it has a `-X` argument exactly when the method is not GET, followed by the method's name right after `curl` |
| Http.GenerateCurlCommand | src/http.rs:199-274 | the command is the arguments `CurlParts` lists, in that order, joined with spaces: `curl`, `-X` and the method except for GET, the kept headers, the auth arguments, the body for POST/PUT/PATCH, and the URL with its query string; only the body has its single quotes escaped, the header, auth and URL words are put in plain single quotes as written |
| FileStorage.SanitizeFilename | src/storage/file_storage.rs:1241-1251 | the name keeps its length, every char of the result is safe, and a char is kept exactly when it was safe (or was already `_`) |
| FileStorage.SanitizeIdempotent | src/storage/file_storage.rs:1241-1251 | sanitizing twice is sanitizing once, and a name is unchanged exactly when all its chars are safe |
| FileStorage.FindChar | src/storage/file_storage.rs:1256 | the first `_` of the name, or none |
| FileStorage.ExtractNumericPrefix | src/storage/file_storage.rs:1255-1263 | a number exactly when the text before the first `_` is four ASCII digits, and then their value, below 10000 |
| FileStorage.RemoveNumericPrefix | src/storage/file_storage.rs:1267-1275 | the name after a `dddd_` prefix, or the whole name without one |
| FileStorage.ZeroPadded | src/storage/file_storage.rs:198 | `{:04}` writes the number's digits padded with zeros to at least four chars, and they read back as the number |
| FileStorage.NumericPrefixRoundTrip | src/storage/file_storage.rs:1255-1275 | a name built as `{:04}_{rest}` from a number below 10000 gives back that number and that rest |
| FileStorage.ParseU32 | src/storage/file_storage.rs:165 | a parsed `u32` is at most `u32::MAX` |
| FileStorage.ParseU32Rendered | src/storage/file_storage.rs:165 | a number written in decimal, padded or not, parses back to itself; a negative or empty name does not parse |
| FileStorage.LastDot | src/storage/file_storage.rs:153-157 | the position of the last `.`, or none |
| FileStorage.TomlName | src/storage/file_storage.rs:153-157 | a `<stem>.toml` name has that stem and the extension `toml` |
| FileStorage.MaxKeyIsMax | src/storage/file_storage.rs:164-167 | the running maximum is at least every number present and is 0 or one of them |
| FileStorage.MaxRequestNumberIsMax | src/storage/file_storage.rs:150-169 | the largest request number is at least every request file's number, is 0 or one of them, and fits in a `u32` |
| FileStorage.FindNextNumericPrefix | src/storage/file_storage.rs:146-172 | the loop returns one more than the largest request number, wrapping past `u32::MAX` |
| FileStorage.NextRequestFileIsFresh | src/storage/file_storage.rs:659 | the new request file `{:04}.toml` is a request file numbered above every existing one, so it names none of them, unless number `u32::MAX` is taken |
| FileStorage.MaxFolderNumberIsMax | src/storage/file_storage.rs:183-195 | the largest four-digit folder number is at least every such folder's number and is 0 or one of them |
| FileStorage.FindNextCollectionNumber | src/storage/file_storage.rs:175-199 | "0001" when the collections directory is missing, else one more than the largest four-digit folder number, written with at least four digits |
| FileStorage.NextCollectionNumberIsFresh | src/storage/file_storage.rs:175-199 | below 9999 the next number is a four-digit name above every numbered folder, so it names none of them |
| FileStorage.NextCollectionNumberAfter9999 | src/storage/file_storage.rs:188-198 | after folder 9999 the next name is "10000", which is not four digits, so it is never counted and is handed out again |
| FileStorage.MissingCollectionsLikeEmpty | src/storage/file_storage.rs:176-198 | a missing collections directory gives the same name as an empty one |
| FileStorage.NumberedLeTotal | src/storage/file_storage.rs:1280-1290 | any two names compare under the numbered order |
| FileStorage.NumberedLeTransitive | src/storage/file_storage.rs:1280-1290 | the numbered order chains |
| FileStorage.PrefixLeTotalPreorder | src/storage/file_storage.rs:1280-1290 | `PrefixLe`, the comparator of `sort_by_numeric_prefix`: the comparator of `sort_by_numeric_prefix` is a total preorder |
| FileStorage.StemLeTotalPreorder | src/storage/file_storage.rs:1091-1102 | `StemLe`, the comparator of the request files in `load_request_by_indices`: the comparator of the request files in `load_request_by_indices` is a total preorder |
| FileStorage.DigitsOrder | src/storage/file_storage.rs:490-502 | on digit strings of one length, string order is numeric order |
| FileStorage.CreatedFileOrdersAgree | src/storage/file_storage.rs:490-502 | for the `{:04}.toml` files the store creates, the file-name order of `load_collections` and the numbered-stem order of `load_request_by_indices` agree with the numbers' order |
| FileStorage.SortByNumericPrefix | src/storage/file_storage.rs:1279-1292 | the names end sorted by the comparator and are a permutation of the input |
| FileStorage.PrefixSortedOrder | src/storage/file_storage.rs:1279-1292 | in the sorted list prefixed names come first by increasing number, then unprefixed ones in string order |
| FileStorage.FolderKey | src/storage/file_storage.rs:517-518 | the folder name as a `u32`, `u32::MAX` when it does not parse |
| FileStorage.FileNameLeTotalPreorder | src/storage/file_storage.rs:490-502 | sorting by file name uses a total preorder |
| FileStorage.FolderLeTotalPreorder | src/storage/file_storage.rs:516-520 | sorting by folder number uses a total preorder |
| FileStorage.SortEachCollection | src/storage/file_storage.rs:489-502 | each collection keeps its folder and request files, with the requests sorted by file name |
| FileStorage.Reindex | src/storage/file_storage.rs:523-528 | every request of a collection is addressed by the collection's index and its own position |
| FileStorage.ReindexAll | src/storage/file_storage.rs:523-528 | after the index loop every request is addressed by its position, and the files are unchanged |
| FileStorage.OrderCollections | src/storage/file_storage.rs:489-528 | the collections come sorted by folder number, each with its requests sorted by file name and indexed by position, and they are the loaded folders and files rearranged |
| FileStorage.RequestStems | src/storage/file_storage.rs:1074-1088 | each stem is the stem of a request file in the listing |
| FileStorage.LoadRequestByIndices | src/storage/file_storage.rs:1018-1115 | `None` for an index out of range, a missing directory, or too few request files; otherwise the stem at the request index of the request files sorted numbered-first |
| FileStorage.StemSortedOrder | src/storage/file_storage.rs:1091-1102 | in the sorted request files, stems that parse as `u32` come first by value, then the others in string order |
| Sorting.SortBy | src/storage/file_storage.rs:1280 | `sort_by` leaves the array sorted by the comparator and a permutation of what it held |
| Sorting.Sorted | src/storage/file_storage.rs:516 | the sorted rearrangement of a vector |
| Sorting.LexLeTotal | src/storage/file_storage.rs:501 | `Ord` on strings is total and antisymmetric |
| Sorting.LexLeTransitive | src/storage/file_storage.rs:501 | `Ord` on strings is transitive |
| Sorting.LexCommonPrefix | src/storage/file_storage.rs:501 | a common prefix does not decide string order |
| Sorting.LexAppendDiffer | src/storage/file_storage.rs:501 | of two different strings of one length, the smaller stays smaller whatever follows |
| Sorting.MapPermutation | src/storage/file_storage.rs:516-520 | rearranging a sequence rearranges its image the same way |
| Strings.Utf8Len | src/history/mod.rs:259 | a char takes one to four bytes, and one exactly when it is ASCII |
| Strings.ByteLen | src/history/mod.rs:259 | a string takes at least one and at most four bytes per char |
| Strings.ByteLenAppend | src/history/mod.rs:259 | the byte length of a concatenation is the sum of the byte lengths |
| Strings.ByteLenAscii | src/ui/widget_calc.rs:38 | a string has as many bytes as chars exactly when it is ASCII |
| Strings.CharIndexSound | src/history/mod.rs:121-128 | a byte offset accepted as a char boundary is the byte length of the chars before it |
| Strings.CharIndexOfPrefix | src/history/mod.rs:121-128 | every char boundary is accepted, at its char index |
| Strings.ToLower | src/http.rs:7 | lower-casing keeps the length and lower-cases each char on its own |
| Strings.Trim | src/http.rs:37 | `trim` gives a slice of the string with only whitespace cut off, neither starting nor ending in whitespace |
| Strings.TrimIdempotent | src/main.rs:1636 | trimming twice is trimming once |
| Strings.TrimEmptyIffBlank | src/http.rs:37 | a string trims to nothing exactly when all its chars are whitespace |
| Strings.NatToString | src/ui/widget_calc.rs:16 | a number's decimal form is one or more digits, without a leading zero unless it is 0 |
| Strings.NatToStringValue | src/ui/widget_calc.rs:16 | the decimal form reads back as the number |
| Strings.NatToStringLength | src/ui/widget_calc.rs:16 | a number has `d` digits exactly when it lies between `10^(d-1)` and `10^d` |
| Strings.ReplaceRangeSplits | src/history/mod.rs:122-127 | a `replace_range` that does not panic cuts the string into the part before, the replaced part and the part after, and puts the new text between them |
| Strings.InsertStrIsReplaceRange | src/history/mod.rs:121 | `insert_str` is `replace_range` over an empty range: both panic exactly off a char boundary |
| Strings.ReplaceAt | src/history/mod.rs:125-127 | replacing the bytes of `t` in `a + t + b` by `u` gives `a + u + b` |
| Strings.RemoveAt | src/history/mod.rs:122-123 | removing the bytes of `t` from `a + t + b` gives `a + b` |
| Strings.InsertAt | src/history/mod.rs:121 | inserting at the byte end of `a` in `a + b` gives `a + t + b` |
| Types.MethodNameProperties | src/types.rs:256-268 | `MethodName`: method names are upper case and tell the methods apart |
| Types.AuthLabelProperties | src/types.rs:270-279 | `AuthLabel`: the auth labels tell the kinds apart, and the default kind reads "None" |
| Types.DefaultRequest | src/types.rs:158-180 | the default request is a GET called "New Request" with every text field and list empty, no auth and indices 0 |
| Types.CloneRequest | src/types.rs:133-156 | a clone copies every field but the metadata, which starts afresh |
| Types.CloneIdempotent | src/types.rs:133-180 | cloning a clone changes nothing, and cloning the default request gives it back |
| Types.CloneCollection | src/types.rs:76-81 | a cloned folder keeps its name, flag and request count, and each request is a clone: same content, fresh metadata |
| Types.CloneCollectionIdempotent | src/types.rs:76-81 | cloning a cloned folder changes nothing |
| Types.Environment.constructor | src/types.rs:211-217 | a new environment has the name, no variables and no description |
| Types.Environment.AddVariable | src/types.rs:219-221 | the key now maps to the value, every other key is unchanged |
| Types.Environment.GetVariable | src/types.rs:223-225 | the value stored for the key, exactly when there is one |
| RequestContent.FormatLabelRoundTrip | src/ui/request.rs:336-346 | `ContentTypeFor`, the content type a chosen format sets: choosing a body format and reading the Body tab label back from the content type it sets names that same format; with no format the content type is kept |
| RequestContent.BodyLabelIgnoresCase | src/ui/request.rs:1347-1360 | `BodyLabel`, the Body tab label: the Body tab label depends on the content type only up to ASCII case, since the function lowers it first |
| RequestContent.FormatLabels | src/ui/request.rs:1347-1357 | the content type each format sets reads back as its label: `application/json` as JSON, `application/xml` as XML (it mentions xml but not json), `application/graphql` as GraphQL (none of json, xml or html), `text/plain` as Text (it starts with `text/` and mentions none of the earlier keywords) |
| RequestContent.FormattedBody | src/ui/request.rs:354-407 | a JSON body becomes the JSON library's pretty-printing, or nothing when it does not parse; XML and text bodies come back trimmed, no longer than before and without whitespace at either end; GraphQL and no format give nothing |
| RequestContent.FormatBodyIdempotent | src/ui/request.rs:376-395 | trimming an XML or text body a second time changes nothing |
| RequestContent.UrlValidAgreesWithSend | src/ui/request.rs:585-586 | `UrlValid`, the check that enables Send: every URL that the sender accepts enables the Send button; for URLs without a `{{` variable the button is enabled for exactly those URLs |
| RequestPanel.WithKey | src/ui/request.rs:267-275 | editing a row's key leaves the number of rows, every value and every other key as they were; an index past the end changes nothing |
| RequestPanel.WithValue | src/ui/request.rs:276-284 | editing a row's value leaves the number of rows, every key and every other value as they were; an index past the end changes nothing |
| RequestPanel.WithEmptyPair | src/ui/request.rs:285-291 | adding a row appends one empty key/value pair and keeps the existing rows |
| RequestPanel.WithoutPair | src/ui/request.rs:292-300 | removing an existing row drops exactly that row and shifts the later rows up; an index past the end changes nothing |
| RequestPanel.PairEditsCommute | src/ui/request.rs:267-284 | key edits and value edits commute, and the later of two edits to the same field wins |
| RequestPanel.AddThenRemovePair | src/ui/request.rs:285-300 | removing a row just added, whatever was typed into it, restores the previous rows |
| RequestPanel.EditReply | src/ui/request.rs:173-245 | a message that edits the request returns the edited clone, which keeps its name and indices and carries fresh metadata; only the editor and the URL input can return nothing, when their widget reports no change |
| RequestPanel.SearchReply | src/ui/request.rs:455-495 | search-bar messages never edit the request, send it or change the environment |
| RequestPanel.ControlReply | src/ui/request.rs:247-262 | buttons and menus never edit the request; the result is a send exactly for the Send button, and an environment change exactly when the chosen environment exists |
| RequestPanel.HeaderEdits | src/ui/request.rs:267-300 | each Headers-tab message yields the request with only its headers changed, as the row operations describe |
| RequestPanel.ParamEdits | src/ui/request.rs:301-334 | each Params-tab message yields the request with only its parameters changed, as the row operations describe |
| RequestPanel.FieldEdits | src/ui/request.rs:173-246 | choosing a method yields the clone with only that method set; a URL or body the widget reports yields the clone with only that field set, and a widget message that changes nothing yields no action |
| RequestPanel.AuthTypeChoice | src/ui/request.rs:409-415 | choosing the kind of authentication yields the clone with only the auth type set |
| RequestPanel.BearerAndBasicEdits | src/ui/request.rs:416-433 | a typed bearer token, basic user name or basic password yields the clone with only that field set |
| RequestPanel.ApiKeyEdits | src/ui/request.rs:434-445 | a typed API key or API key header yields the clone with only that field set |
| RequestPanel.BodyFormatChoice | src/ui/request.rs:336-353 | choosing a body format records it and sets a content type whose label names it (no format keeps the content type); nothing else in the request changes |
| RequestPanel.EditsKeepIdentity | src/ui/request.rs:147-524 | whatever the message, a request handed back keeps its name and its place in the collections and carries fresh metadata |
| RequestPanel.OnlySendSends | src/ui/request.rs:247-251 | only the Send button sends, and the send is stamped with the current instant |
| RequestPanel.EnvironmentSelection | src/ui/request.rs:448-454 | an environment becomes active exactly when it is chosen and exists, and it is the chosen one |
| RequestPanel.Panel.constructor | src/ui/request.rs:115-135 | a new panel has both menus closed, nothing hovered, the Body tab selected and no search bar, query or match |
| RequestPanel.Panel.Update | src/ui/request.rs:147-524 | returns `Reply` for the message, whose cases the edit, search and control lemmas describe; the method menu closes when a method is chosen; a body format closes its menu and shows the Body tab; the toggles flip their menus; hover flags follow the pointer; Find opens the search bar; a match is remembered and a miss forgets it; closing the bar clears the query and the match |
| RequestPanel.Panel.EditRequest | src/ui/request.rs:173-446 | edit messages return the edited clone; of the panel's state only the two menus and the selected tab react, to a method or body-format choice |
| RequestPanel.Panel.UpdateSearch | src/ui/request.rs:455-495 | search messages change only the search bar's visibility, query and match, and leave the menus, hover flags and tab alone |
| RequestPanel.Panel.UpdateControls | src/ui/request.rs:247-262 | buttons, tabs and menus change only the menu, hover and tab state, and leave the search bar alone |
| ResponseContent.FirstRuleIsFirstMatch | src/ui/response.rs:705-740 | reading the keyword table top-down picks the language of the first rule whose keyword occurs, or JSON when none does |
| ResponseContent.SyntaxByRules | src/ui/response.rs:705-740 | the chain of `contains` tests picks the same language as the keyword table |
| ResponseContent.SyntaxIsFirstMatch | src/ui/response.rs:705-740 | `SyntaxFor`: the highlighting language is the first rule matching the lowered content type, and JSON when none matches |
| ResponseContent.SyntaxIgnoresCase | src/ui/response.rs:706 | the highlighting language does not depend on the case of the content type |
| ResponseContent.SyntaxPrecedence | src/ui/response.rs:708-724 | anything mentioning json is JSON; JavaScript without json, xml or html is JavaScript; Java is chosen only for types that mention java but not javascript |
| ResponseContent.FormattedResponse | src/ui/response.rs:103-131 | no response gives nothing; a content type containing `json` (case-sensitive, as written) gives the JSON library's pretty-printing or nothing; any other type gives the trimmed body |
| ResponseContent.ResponseFormatAgreesWithRequest | src/ui/response.rs:103-131 | the response is formatted as the request editor formats a JSON body when its type mentions json, and as a text body otherwise |
| ResponseContent.ResponseFormatIdempotent | src/ui/response.rs:115-121 | formatting a non-JSON response whose body is already formatted changes nothing |
| ResponsePanel.Reply | src/ui/response.rs:69-177 | only read-only editor commands pass through, unchanged; Find schedules opening the search bar; Format returns the formatted body whenever there is one; focus goes to the search input exactly on OpenSearch and FocusSearch; search actions carry the panel's search input id |
| ResponsePanel.BodyStaysReadOnly | src/ui/response.rs:71-91 | no message yields an editing command for the response body |
| ResponsePanel.ScrollCentresMatch | src/ui/response.rs:148-160 | scrolling to a match is never above the top, and puts a match at least 200 pixels down into the middle of the 400-pixel viewport |
| ResponsePanel.Panel.constructor | src/ui/response.rs:57-67 | a new panel shows the Body tab with no search bar, query or match |
| ResponsePanel.Panel.Update | src/ui/response.rs:69-177 | returns the reply; a tab is shown when selected; OpenSearch shows the search bar; a match is remembered and a miss forgets it; closing the bar clears the query and the match |
| Collections.NewRequest | src/ui/collections.rs:483-497 | the proposed request is the default request named "New Request {n + 1}" for a folder of n requests, placed at index n in the given collection |
| Collections.NewCollection | src/ui/collections.rs:507-515 | the proposed folder is empty, expanded and named "New Collection {n + 1}" when there are n folders |
| Collections.NewRequestAppends | src/ui/collections.rs:483-497 | the new request lands at the end of its collection, at the position its index names, and is not named like the request added just before it |
| Collections.Duplicate | src/ui/collections.rs:557-572 | the copy is a clone of the original: same content, fresh metadata, the name with " (Copy)" appended, and the requested indices |
| Collections.DuplicateRenames | src/ui/collections.rs:561 | a copy's name is never the original's, and it starts with it |
| Collections.Toggled | src/ui/collections.rs:432-439 | toggling flips only the chosen folder's expanded flag; everything else stays |
| Collections.ToggleTwice | src/ui/collections.rs:432-439 | toggling a folder twice restores the sidebar |
| Collections.WithoutFolder | src/ui/collections.rs:499-506 | deleting a folder keeps the folders before it and shifts the later ones up |
| Collections.WithoutFolderLosesOne | src/ui/collections.rs:499-506 | deleting a folder loses exactly that folder |
| Collections.Reply | src/ui/collections.rs:430-589 | a click loads an existing request unless it is a double click; toggling, adding a request, sending from the menu and duplicating act exactly on existing entries; sending sends a clone of the stored request (same content, fresh metadata); toggling replies with a clone of the toggled folder (flag flipped, name and request count kept, every request cloned); duplicating replies with `Duplicate` of the stored request; adding a request replies with `NewRequest` for that folder, adding a folder with `NewCollection` numbered after the existing folders, and deleting a request with its indices, always; nothing replies with a rename |
| Collections.SecondClick | src/ui/collections.rs:440-482 | `IsDoubleClick`: a second click on the same request opens the rename dialog exactly when it comes less than 500 ms after the first; a click on another request loads it |
| Collections.Panel.constructor | src/ui/collections.rs:62-72 | a new sidebar has no collections, no remembered click and the rename dialog closed |
| Collections.Panel.Update | src/ui/collections.rs:430-589 | returns the reply; flips or removes an existing folder; remembers a click on an existing request; opens the rename dialog with the target's current name on a double click, a folder or request Rename, or ShowRenameModal; leaves everything else unchanged |
| Collections.Panel.OpenRenameRequest | src/ui/collections.rs:544-556 | opens the rename dialog on an existing request, starting from its name; a missing request changes nothing |
| Collections.MethodBadgeProperties | src/ui/collections.rs:591-615 | `MethodBadge`: badges are one to four capital letters, a method name of at most four letters is its own badge, and different methods get different badges |

## Left out

- Network and asynchronous work are not modelled. This covers the HTTP call and response reading in `send_request`, the spawned save tasks, and the debounce task. Of `send_request`, only the checks made before any request is built are modelled (`Http.CheckRequest`).
- Filesystem effects are not modelled: reading, writing, copying, deleting, migrating, and TOML (de)serialisation. The storage functions work on in-memory directory listings: a folder's entry names and, for request files, their stems.
- `load_collections` reads each request file and skips the ones that fail to parse. The model takes the parsed requests as given and models only the sorting and re-indexing.
- File stems that are not valid UTF-8 are not modelled, because a listing here is a sequence of strings.
- The JSON library is an input. Pretty-printing a body arrives as `prettyJson`, which is `None` when the body does not parse. This applies to `RequestContent.FormattedBody` and `ResponseContent.FormattedResponse`.
- URL encoding of query parameters is an uninterpreted function parameter (`encode`) of `Http.GenerateCurlCommand`.
- Base64 encoding is not modelled.
- Text measurement and the visual rows of the editor are inputs. They come from the iced paragraph measurement and from `compute_visual_rows`, which is not part of this model.
- The regular expression `\{\{[^}]+\}\}` is replaced by a hand-written scanner (`Segments`), which finds the same left-to-right matches. The variable-pattern helpers used only to build that regular expression are not modelled, and neither is the branch for an invalid pattern, which cannot arise for this fixed pattern.
- Alphanumeric and lower-case tests are ASCII only. `char::is_alphanumeric` and `str::to_lowercase` also handle other Unicode letters. This affects `FileStorage.SanitizeFilename` and the content-type classifiers.
- Rope lines break at `'\n'` only. The rope library also breaks at `\r`, `\r\n` and a few Unicode separators.
- Search offsets count chars. The source slices UTF-8 bytes, which coincide with chars for ASCII text; `Document` keeps the byte arithmetic of the position/offset conversions.
- Pixel values are `real`. There is no `f32` rounding, no NaN and no infinity.
- `WidgetCalc.LineHeight` and `WidgetCalc.EstimatedRows` require a non-zero content width, because with zero the `f32` division gives an infinity or NaN that real numbers do not have.
- Instants are millisecond `nat`s passed as parameters, and widget ids are `nat`s. Tasks and widget operations returned by `update` are action descriptors.
- All view code, styling, tooltips, the cursor blink, the spinner and `format_bytes` are not modelled.
- Messages of the undoable URL input and body editor reach the request panel reduced to what their own `update` returned. Those two wrapper widgets use a history type that is not part of this model.
- `Collections.Reply`: `CopyRequestAsCurl` only logs the command in the source, so it is modelled as no action.
- `ResponsePanel.Reply`: the body editor's undo and redo messages give no action, as in the source; the response panel's `body_editor` field is not modelled.
- `Overlay.SelectionRect` requires the start column not to exceed the end column on a one-line selection. Otherwise the source's `usize` subtraction would panic.
- `FileStorage.FindNextNumericPrefix` writes out the `u32` wrap-around of `max + 1`, as a release build computes it. A debug build panics instead, which the model does not capture.
- `ManagedTextInput.WrappingSub` models the `u64` subtraction of timestamps as wrapping, as a release build does. A debug build would panic on a clock that goes backwards.
- `Collections.NewRequest` and `Collections.Duplicate` keep indices as unbounded `nat`s. The source's `as u32` casts would truncate counts beyond `u32::MAX`.
- `Sorting.SortBy` is proved to sort by the key order and to be a permutation. That the source's stable sort keeps the input order of equal keys is not stated.

## Findings

| source | as written | input that shows it | evidently intended | confidence | as-written member | corrected member |
|---|---|---|---|---|---|---|
| src/history/mod.rs:168-176 | merging two inserts compares the second insert's byte offset with the first text's length in chars | insert "éab" at 0, then "x" at byte 3 ten milliseconds later: executed in turn they give "éaxb", but the merged command inserts "éabx" on redo | compare with the byte length of the first text, so that only an insert right after it merges | not executed | TextInputCommand.AsWrittenMergeBreaksRedo | TextInputCommand.MergedEqualsSequence |
| src/main.rs:1766-1801 | the forward search starts one char past the cursor, which after a selection sits at the match's end | in "abab" with "ab" selected at 0 (offset 2) the next search selects 0 again; in "xaby" with the cursor at 1 no match is found | start at the cursor, so that the next match is the first one at or after it, wrapping to the start of the text | not executed | Search.ForwardAsWrittenRepeatsMatch | Search.Forward |
| src/http.rs:209-214 | header, auth and URL words are put in single quotes without escaping the quotes inside them; only the body's are escaped | a header `X: it's` gives the word `'X: it's'`, which a POSIX shell does not read as one word | escape single quotes in every word as the body does | not executed | Http.PlainQuoteBreaks | Http.HeaderWord |
