// The two demo applications (examples/custom_text_input_demo.rs and
// examples/url_input_demo.rs). Each keeps the text, a copy of it in its
// input widget, and its own undo history of whole strings capped at 50
// entries; `update` handles one message at a time. The URL demo has the
// same `update`, history helpers and key mapping, without the tooltip
// messages.

module DemoApps {
  import opened Wrappers
  import opened Snapshots
  import KeyChords

  /** The demos' history cap. */
  const HistoryCap: nat := 50

  datatype Message =
    | TextChanged(value: string)
    | CustomTextInputChanged(value: string)
    | TogglePassword
    | Clear
    | Undo
    | Redo
    | ShowTooltip(text: string, x: real, y: real)
    | HideTooltip

  /**
   * The subscription's key mapping: Cmd+Shift+Z asks for redo, Cmd+Z for
   * undo, and every other event for nothing.
   */
  function KeyMessage(event: KeyChords.Event): (m: Option<Message>)
    ensures m.Some? <==> event.KeyPressed? && event.key == KeyChords.Character("z") && event.modifiers.command
    ensures m.Some? ==> (m.value == Redo <==> event.modifiers.shift) && (m.value == Undo <==> !event.modifiers.shift)
  {
    if event.KeyPressed? && event.key == KeyChords.Character("z") then
      if event.modifiers.command && event.modifiers.shift then Some(Redo)
      else if event.modifiers.command then Some(Undo)
      else None
    else None
  }

  class App {
    var textValue: string
    var isPassword: bool
    /** The value held by the demo's input widget, which `update` overwrites to follow the text. */
    var inputValue: string
    var history: seq<string>
    var historyIndex: nat
    var tooltipVisible: bool
    var tooltipText: string
    var tooltipPosition: (real, real)

    /** The history is never empty, within its cap, and the index points into it. */
    predicate HistoryValid()
      reads this
    {
      1 <= |history| <= HistoryCap && historyIndex < |history|
    }

    /** The text is always the current history entry. */
    predicate Valid()
      reads this
    {
      HistoryValid() && textValue == history[historyIndex]
    }

    /** `App::default`: the initial text, in the widget and as the only history entry. */
    constructor (initialText: string)
      ensures Valid()
      ensures textValue == initialText && inputValue == initialText && history == [initialText] && historyIndex == 0
      ensures !isPassword && !tooltipVisible && tooltipText == []
    {
      textValue := initialText;
      isPassword := false;
      inputValue := initialText;
      history := [initialText];
      historyIndex := 0;
      tooltipVisible := false;
      tooltipText := [];
      tooltipPosition := (0.0, 0.0);
    }

    /** `push_to_history`: drop the redo tail, append, cap at 50 by dropping the oldest, and point at the new entry. */
    method PushToHistory(v: string)
      requires HistoryValid()
      modifies this`history, this`historyIndex
      ensures HistoryValid()
      ensures history == Appended(old(history), old(historyIndex), v, HistoryCap)
      ensures historyIndex == |history| - 1 && history[historyIndex] == v
    {
      if historyIndex < |history| - 1 {
        history := history[..historyIndex + 1];
      }
      history := history + [v];
      historyIndex := |history| - 1;
      if |history| > HistoryCap {
        history := history[1..];
        historyIndex := |history| - 1;
      }
      AppendedWithinCap(old(history), old(historyIndex), v, HistoryCap);
    }

    /** `undo`: one entry back and its text, unless already at the first entry. */
    method UndoStep()
      requires HistoryValid()
      modifies this`historyIndex, this`textValue
      ensures HistoryValid() && historyIndex == UndoIndex(old(historyIndex))
      ensures old(historyIndex) > 0 ==> textValue == history[historyIndex]
      ensures old(historyIndex) == 0 ==> textValue == old(textValue)
    {
      if historyIndex > 0 {
        historyIndex := historyIndex - 1;
        textValue := history[historyIndex];
      }
    }

    /** `redo`: one entry forward and its text, unless already at the last entry. */
    method RedoStep()
      requires HistoryValid()
      modifies this`historyIndex, this`textValue
      ensures HistoryValid() && historyIndex == RedoIndex(old(historyIndex), |history|)
      ensures old(historyIndex) + 1 < |history| ==> textValue == history[historyIndex]
      ensures old(historyIndex) + 1 >= |history| ==> textValue == old(textValue)
    {
      if historyIndex < |history| - 1 {
        historyIndex := historyIndex + 1;
        textValue := history[historyIndex];
      }
    }

    /** `can_undo`: `UndoStep` would move. */
    function CanUndo(): (b: bool)
      reads this
      ensures b <==> UndoIndex(historyIndex) != historyIndex
    {
      historyIndex > 0
    }

    /** `can_redo`: `RedoStep` would move. */
    function CanRedo(): (b: bool)
      reads this
      requires HistoryValid()
      ensures b <==> RedoIndex(historyIndex, |history|) != historyIndex
    {
      historyIndex < |history| - 1
    }

    /**
     * `update`: a changed text is recorded and becomes the text (the input
     * widget taking the value it reported); `Clear` records an empty text
     * even when the text is already empty; undo and redo move through the
     * history and copy the text into the widget; the tooltip messages only
     * touch the tooltip. The text stays the current history entry.
     */
    method Update(m: Message)
      requires Valid()
      modifies this
      ensures Valid()
      ensures (m.TextChanged? || m.CustomTextInputChanged?) && m.value != old(textValue) ==>
        history == Appended(old(history), old(historyIndex), m.value, HistoryCap) && textValue == m.value
      ensures (m.TextChanged? || m.CustomTextInputChanged?) && m.value == old(textValue) ==>
        history == old(history) && historyIndex == old(historyIndex) && textValue == old(textValue)
      ensures m.CustomTextInputChanged? ==> inputValue == m.value
      ensures m.TextChanged? ==> inputValue == old(inputValue)
      ensures m.Clear? ==> history == Appended(old(history), old(historyIndex), [], HistoryCap) && textValue == [] && inputValue == []
      ensures m.Undo? ==> historyIndex == UndoIndex(old(historyIndex)) && history == old(history) && inputValue == textValue
      ensures m.Redo? ==> historyIndex == RedoIndex(old(historyIndex), |old(history)|) && history == old(history) && inputValue == textValue
      ensures m.TogglePassword? ==> isPassword == !old(isPassword)
      ensures !m.TogglePassword? ==> isPassword == old(isPassword)
      ensures m.ShowTooltip? ==> tooltipVisible && tooltipText == m.text && tooltipPosition == (m.x, m.y)
      ensures m.HideTooltip? ==> !tooltipVisible && tooltipText == []
      ensures !m.ShowTooltip? && !m.HideTooltip? ==>
        tooltipVisible == old(tooltipVisible) && tooltipText == old(tooltipText) && tooltipPosition == old(tooltipPosition)
      ensures m.TogglePassword? || m.ShowTooltip? || m.HideTooltip? ==>
        textValue == old(textValue) && inputValue == old(inputValue) && history == old(history) && historyIndex == old(historyIndex)
    {
      match m {
        case TextChanged(value) =>
          if value != textValue {
            PushToHistory(value);
            textValue := value;
          }
        case CustomTextInputChanged(value) =>
          inputValue := value;
          if textValue != value {
            PushToHistory(value);
            textValue := value;
          }
        case TogglePassword =>
          isPassword := !isPassword;
        case Clear =>
          PushToHistory([]);
          textValue := [];
          inputValue := [];
        case Undo =>
          UndoStep();
          inputValue := textValue;
        case Redo =>
          RedoStep();
          inputValue := textValue;
        case ShowTooltip(text, x, y) =>
          tooltipVisible := true;
          tooltipText := text;
          tooltipPosition := (x, y);
        case HideTooltip =>
          tooltipVisible := false;
          tooltipText := [];
      }
    }
  }

  /** Undo followed by redo gives back the same entry and text. */
  method UndoThenRedo(app: App)
    requires app.Valid() && app.CanUndo()
    modifies app
    ensures app.Valid()
    ensures app.history == old(app.history) && app.historyIndex == old(app.historyIndex)
    ensures app.textValue == old(app.textValue) && app.inputValue == old(app.textValue)
  {
    app.Update(Undo);
    app.Update(Redo);
  }
}
