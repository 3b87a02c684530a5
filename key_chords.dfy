// The undo/redo/find chords that the editor wrappers (`EditorView` in
// src/ui/editor_view.rs and `Undoable` in src/ui/undoable.rs) catch before
// the wrapped text widget sees them. Both wrappers use the same table.

module KeyChords {

  /** A key as the keyboard reports it: a character key, or any other (named) key. */
  datatype Key = Character(c: string) | Named(name: string)

  /** The two modifier bits the chords look at. */
  datatype Modifiers = Modifiers(command: bool, shift: bool)

  /** An input event: a key press, or any other event (mouse, focus, ...) identified only by a tag. */
  datatype Event = KeyPressed(key: Key, modifiers: Modifiers) | Other(tag: nat)

  /** What a wrapper publishes to its owner. */
  datatype Action = Undo | Redo | Find

  /** Either the wrapper publishes an action and swallows the event, or it forwards the event to the child. */
  datatype Outcome = Publish(action: Action) | Forward(event: Event)

  /**
   * The interception in `update`: the first arm that matches the key, the
   * command bit and the shift bit wins; nothing is intercepted while the
   * wrapped widget is not focused.
   */
  function Intercept(event: Event, focused: bool): (o: Outcome)
    ensures o.Forward? ==> o.event == event
  {
    if !focused || !event.KeyPressed? || !event.key.Character? then Forward(event)
    else
      var c, command, shift := event.key.c, event.modifiers.command, event.modifiers.shift;
      if command && !shift && c == "z" then Publish(Undo)
      else if command && !shift && c == "y" then Publish(Redo)
      else if command && shift && c == "z" then Publish(Redo)
      else if command && c == "f" then Publish(Find)
      else Forward(event)
  }

  /** The chord table, one line per action, independent of the order of the arms. */
  predicate IsChord(key: Key, m: Modifiers, a: Action)
  {
    key.Character? && m.command &&
    match a
    case Undo => key.c == "z" && !m.shift
    case Redo => (key.c == "y" && !m.shift) || (key.c == "z" && m.shift)
    case Find => key.c == "f"
  }

  /** A focused wrapper publishes exactly the action whose chord was pressed; everything else is forwarded unchanged. */
  lemma InterceptMatchesTable(event: Event, focused: bool, a: Action)
    ensures Intercept(event, focused) == Publish(a)
      <==> focused && event.KeyPressed? && IsChord(event.key, event.modifiers, a)
    ensures Intercept(event, focused) == Forward(event)
      <==> !(focused && event.KeyPressed? && exists b :: IsChord(event.key, event.modifiers, b))
  {
    if focused && event.KeyPressed? && event.key.Character? {
      var c := event.key.c;
      assert c == "z" ==> c != "y" && c != "f";
      assert c == "y" ==> c != "f";
      var o := Intercept(event, focused);
      if o.Publish? {
        assert IsChord(event.key, event.modifiers, o.action);
      }
    }
  }

  /** No chord names two actions, so the table is unambiguous. */
  lemma ChordsDisjoint(key: Key, m: Modifiers, a: Action, b: Action)
    requires IsChord(key, m, a) && IsChord(key, m, b)
    ensures a == b
  {
    assert key.c == "z" ==> key.c != "y" && key.c != "f";
    assert key.c == "y" ==> key.c != "f";
  }

  /** Cmd+Shift+Y is not a chord: only Cmd+Y without Shift redoes. */
  lemma ShiftYIsForwarded()
    ensures var e := KeyPressed(Character("y"), Modifiers(true, true));
      Intercept(e, true) == Forward(e)
  {
  }
}
