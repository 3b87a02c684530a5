/**
 * `TextEditorCommand` of `src/history/mod.rs`: the undoable edits of the
 * multi-line editor, applied to a rope at char offsets. A rope edit that
 * panics turns the state into `None`, and it stays `None`.
 */
module TextEditorCommand {
  import opened Wrappers
  import opened Strings
  import Rope
  import TextInputCommand

  /** Timestamps are milliseconds; the cursors are char offsets the editor restores on undo and redo. */
  datatype Command =
    | Insert(at: nat, text: string, cursorBefore: nat, cursorAfter: nat, timestamp: nat)
    | Delete(at: nat, text: string, cursorBefore: nat, cursorAfter: nat, timestamp: nat)
    | Replace(at: nat, oldText: string, newText: string, cursorBefore: nat, cursorAfter: nat, timestamp: nat)
    | IndentLines(lines: seq<nat>, added: string, cursorBefore: nat, cursorAfter: nat, timestamp: nat)

  /** Prefixing `added` to the start of line `line`: one step of indenting. */
  function IndentLine(state: Option<string>, line: nat, added: string): Option<string>
  {
    match state
    case None => None
    case Some(s) =>
      match Rope.LineToChar(s, line)
      case None => None
      case Some(k) => Rope.Insert(s, k, added)
  }

  /** Removing `n` chars from the start of line `line`: one step of undoing an indent. */
  function UnindentLine(state: Option<string>, line: nat, n: nat): Option<string>
  {
    match state
    case None => None
    case Some(s) =>
      match Rope.LineToChar(s, line)
      case None => None
      case Some(k) => Rope.Remove(s, k, k + n)
  }

  /** Indenting every listed line, the last listed first. */
  function IndentAll(state: Option<string>, lines: seq<nat>, added: string): Option<string>
    decreases |lines|
  {
    if |lines| == 0 then state
    else IndentAll(IndentLine(state, lines[|lines| - 1], added), lines[..|lines| - 1], added)
  }

  /** Undoing the indent of every listed line, the last listed first. */
  function UnindentAll(state: Option<string>, lines: seq<nat>, n: nat): Option<string>
    decreases |lines|
  {
    if |lines| == 0 then state
    else UnindentAll(UnindentLine(state, lines[|lines| - 1], n), lines[..|lines| - 1], n)
  }

  /** `execute`. */
  function Execute(c: Command, state: Option<string>): Option<string>
  {
    match c
    case Insert(at, text, _, _, _) => Rope.InsertInto(state, at, text)
    case Delete(at, text, _, _, _) => Rope.RemoveFrom(state, at, at + |text|)
    case Replace(at, oldText, newText, _, _, _) =>
      Rope.InsertInto(Rope.RemoveFrom(state, at, at + |oldText|), at, newText)
    case IndentLines(lines, added, _, _, _) => IndentAll(state, lines, added)
  }

  /** `undo`. */
  function Undo(c: Command, state: Option<string>): Option<string>
  {
    match c
    case Insert(at, text, _, _, _) => Rope.RemoveFrom(state, at, at + |text|)
    case Delete(at, text, _, _, _) => Rope.InsertInto(state, at, text)
    case Replace(at, oldText, newText, _, _, _) =>
      Rope.InsertInto(Rope.RemoveFrom(state, at, at + |newText|), at, oldText)
    case IndentLines(lines, added, _, _, _) => UnindentAll(state, lines, |added|)
  }

  /** The loop of `execute` for `IndentLines`, walking the line list backwards. */
  method ExecuteIndentLines(rope: string, lines: seq<nat>, added: string) returns (r: Option<string>)
    ensures r == Execute(IndentLines(lines, added, 0, 0, 0), Some(rope))
  {
    r := Some(rope);
    var i := |lines|;
    assert lines[..i] == lines;
    while i > 0
      invariant 0 <= i <= |lines|
      invariant IndentAll(r, lines[..i], added) == IndentAll(Some(rope), lines, added)
      decreases i
    {
      assert lines[..i][..i - 1] == lines[..i - 1];
      i := i - 1;
      r := IndentLine(r, lines[i], added);
    }
  }

  /** The loop of `undo` for `IndentLines`, walking the line list backwards. */
  method UndoIndentLines(rope: string, lines: seq<nat>, added: string) returns (r: Option<string>)
    ensures r == Undo(IndentLines(lines, added, 0, 0, 0), Some(rope))
  {
    r := Some(rope);
    var addedLen := |added|;
    var i := |lines|;
    assert lines[..i] == lines;
    while i > 0
      invariant 0 <= i <= |lines|
      invariant UnindentAll(r, lines[..i], addedLen) == UnindentAll(Some(rope), lines, addedLen)
      decreases i
    {
      assert lines[..i][..i - 1] == lines[..i - 1];
      i := i - 1;
      r := UnindentLine(r, lines[i], addedLen);
    }
  }

  /** `added` repeated `n` times. */
  function Repeat(added: string, n: nat): string
  {
    if n == 0 then "" else Repeat(added, n - 1) + added
  }

  /** How often `line` is listed. */
  function Count(lines: seq<nat>, line: nat): nat
    decreases |lines|
  {
    if |lines| == 0 then 0
    else Count(lines[..|lines| - 1], line) + (if lines[|lines| - 1] == line then 1 else 0)
  }

  /** Lines `ls` after indenting `lines`: each line carries one `added` in front per time it is listed. */
  function Indented(ls: seq<string>, lines: seq<nat>, added: string): (r: seq<string>)
    ensures |r| == |ls|
  {
    seq(|ls|, k requires 0 <= k < |ls| => Repeat(added, Count(lines, k)) + ls[k])
  }

  predicate ListsOnly(lines: seq<nat>, lineCount: nat)
  {
    forall i :: 0 <= i < |lines| ==> lines[i] < lineCount
  }

  lemma {:induction false} CountPositive(lines: seq<nat>, line: nat)
    ensures Count(lines, line) > 0 <==> line in lines
    decreases |lines|
  {
    if |lines| > 0 {
      var prefix := lines[..|lines| - 1];
      CountPositive(prefix, line);
      assert lines == prefix + [lines[|lines| - 1]];
    }
  }

  lemma {:induction false} RepeatFront(added: string, n: nat)
    ensures Repeat(added, n + 1) == added + Repeat(added, n)
  {
    if n > 0 {
      RepeatFront(added, n - 1);
    }
  }

  lemma {:induction false} RepeatBreakFree(added: string, n: nat)
    requires Rope.BreakFree(added)
    ensures Rope.BreakFree(Repeat(added, n))
  {
    if n > 0 {
      RepeatBreakFree(added, n - 1);
    }
  }

  lemma IndentedIsLines(ls: seq<string>, lines: seq<nat>, added: string)
    requires Rope.IsLines(ls) && Rope.BreakFree(added)
    ensures Rope.IsLines(Indented(ls, lines, added))
  {
    forall k | 0 <= k < |ls|
      ensures Rope.BreakFree(Indented(ls, lines, added)[k])
    {
      RepeatBreakFree(added, Count(lines, k));
    }
  }

  lemma IndentedNothing(ls: seq<string>, added: string)
    ensures Indented(ls, [], added) == ls
  {
    forall k | 0 <= k < |ls|
      ensures Indented(ls, [], added)[k] == ls[k]
    {
      assert "" + ls[k] == ls[k];
    }
  }

  /** Indenting the last listed line first, then the others, is indenting them all. */
  lemma IndentedStep(ls: seq<string>, lines: seq<nat>, added: string)
    requires |lines| > 0 && lines[|lines| - 1] < |ls|
    ensures var last := lines[|lines| - 1];
      Indented(ls[last := added + ls[last]], lines[..|lines| - 1], added) == Indented(ls, lines, added)
  {
    var last := lines[|lines| - 1];
    var prefix := lines[..|lines| - 1];
    var ls1 := ls[last := added + ls[last]];
    forall k | 0 <= k < |ls|
      ensures Indented(ls1, prefix, added)[k] == Indented(ls, lines, added)[k]
    {
      if k == last {
        assert Repeat(added, Count(prefix, k)) + (added + ls[k]) == Repeat(added, Count(prefix, k) + 1) + ls[k];
      }
    }
  }

  /** Undoing the indent of the last listed line is indenting only the others. */
  lemma UnindentedStep(ls: seq<string>, lines: seq<nat>, added: string)
    requires |lines| > 0 && lines[|lines| - 1] < |ls|
    ensures var last := lines[|lines| - 1];
      var c := Count(lines[..|lines| - 1], last);
      Indented(ls, lines, added)[last] == added + (Repeat(added, c) + ls[last])
      && Indented(ls, lines, added)[last := Repeat(added, c) + ls[last]] == Indented(ls, lines[..|lines| - 1], added)
  {
    var last := lines[|lines| - 1];
    var prefix := lines[..|lines| - 1];
    var c := Count(prefix, last);
    var m := Indented(ls, lines, added);
    RepeatFront(added, c);
    assert m[last] == Repeat(added, c + 1) + ls[last];
    assert m[last] == added + (Repeat(added, c) + ls[last]);
    forall k | 0 <= k < |ls|
      ensures m[last := Repeat(added, c) + ls[last]][k] == Indented(ls, prefix, added)[k]
    {
    }
  }

  /**
   * Executing `IndentLines` on a rope made of the lines `ls` prefixes each
   * listed line with `added`, once per listing, and touches nothing else.
   */
  lemma {:induction false} IndentAllLines(ls: seq<string>, lines: seq<nat>, added: string)
    requires Rope.IsLines(ls) && Rope.BreakFree(added) && ListsOnly(lines, |ls|)
    ensures IndentAll(Some(Rope.Join(ls)), lines, added) == Some(Rope.Join(Indented(ls, lines, added)))
    decreases |lines|
  {
    if |lines| == 0 {
      IndentedNothing(ls, added);
    } else {
      var last := lines[|lines| - 1];
      var ls1 := ls[last := added + ls[last]];
      Rope.InsertAtLine(ls, last, added);
      assert Rope.IsLines(ls1);
      IndentAllLines(ls1, lines[..|lines| - 1], added);
      IndentedStep(ls, lines, added);
    }
  }

  /** Undoing `IndentLines` on the indented lines takes every `added` off again. */
  lemma {:induction false} UnindentAllLines(ls: seq<string>, lines: seq<nat>, added: string)
    requires Rope.IsLines(ls) && Rope.BreakFree(added) && ListsOnly(lines, |ls|)
    ensures UnindentAll(Some(Rope.Join(Indented(ls, lines, added))), lines, |added|) == Some(Rope.Join(ls))
    decreases |lines|
  {
    if |lines| == 0 {
      IndentedNothing(ls, added);
    } else {
      UnindentLast(ls, lines, added);
      UnindentAllLines(ls, lines[..|lines| - 1], added);
    }
  }

  /** Undoing the indent of the last listed line leaves the rope with the other lines indented. */
  lemma UnindentLast(ls: seq<string>, lines: seq<nat>, added: string)
    requires Rope.IsLines(ls) && Rope.BreakFree(added) && ListsOnly(lines, |ls|) && |lines| > 0
    ensures UnindentLine(Some(Rope.Join(Indented(ls, lines, added))), lines[|lines| - 1], |added|)
      == Some(Rope.Join(Indented(ls, lines[..|lines| - 1], added)))
  {
    var last := lines[|lines| - 1];
    var c := Count(lines[..|lines| - 1], last);
    var m := Indented(ls, lines, added);
    IndentedIsLines(ls, lines, added);
    UnindentedStep(ls, lines, added);
    Rope.RemoveAtLine(m, last, added, Repeat(added, c) + ls[last]);
  }

  /** `Rope::len_lines`. */
  function LenLines(s: string): nat
  {
    |Rope.SplitLines(s)|
  }

  /** What an undo relies on: the text a command removes is where it says, and the lines it indents exist. */
  predicate Applies(c: Command, s: string)
  {
    match c
    case Insert(at, _, _, _, _) => at <= |s|
    case Delete(at, text, _, _, _) => at + |text| <= |s| && s[at..at + |text|] == text
    case Replace(at, oldText, _, _, _, _) => at + |oldText| <= |s| && s[at..at + |oldText|] == oldText
    case IndentLines(lines, added, _, _, _) => Rope.BreakFree(added) && ListsOnly(lines, LenLines(s))
  }

  /** `IndentLines` prefixes `added` to each listed line of the rope, once per listing. */
  lemma IndentLinesExecute(c: Command, s: string)
    requires c.IndentLines? && Applies(c, s)
    ensures Execute(c, Some(s)) == Some(Rope.Join(Indented(Rope.SplitLines(s), c.lines, c.added)))
  {
    Rope.JoinSplitLines(s);
    IndentAllLines(Rope.SplitLines(s), c.lines, c.added);
  }

  /** Undo after execute gives the rope back. */
  lemma UndoAfterExecute(c: Command, s: string)
    requires Applies(c, s)
    ensures Execute(c, Some(s)).Some?
    ensures Undo(c, Execute(c, Some(s))) == Some(s)
  {
    match c
    case Insert(at, text, _, _, _) =>
      Rope.RemoveInserted(s, at, text);
    case Delete(at, text, _, _, _) =>
      Rope.InsertRemoved(s, at, text);
    case Replace(at, oldText, newText, _, _, _) =>
      Rope.InsertRemoved(s, at, oldText);
      var s1 := Rope.Remove(s, at, at + |oldText|).value;
      Rope.RemoveInserted(s1, at, newText);
    case IndentLines(lines, added, _, _, _) =>
      var ls := Rope.SplitLines(s);
      Rope.JoinSplitLines(s);
      IndentAllLines(ls, lines, added);
      UnindentAllLines(ls, lines, added);
  }

  /** Redo after undo gives the rope back, for a rope holding what the command inserted. */
  lemma RedoAfterUndo(c: Command, s: string)
    requires !c.IndentLines?
    requires Applies(Inverse(c), s)
    ensures Undo(c, Some(s)).Some?
    ensures Execute(c, Undo(c, Some(s))) == Some(s)
  {
    UndoAfterExecute(Inverse(c), s);
  }

  /** The edit `undo` performs, as a command. */
  function Inverse(c: Command): (r: Command)
    requires !c.IndentLines?
    ensures forall state :: Execute(r, state) == Undo(c, state)
    ensures forall state :: Undo(r, state) == Execute(c, state)
  {
    match c
    case Insert(at, text, cb, ca, ts) => Delete(at, text, ca, cb, ts)
    case Delete(at, text, cb, ca, ts) => Insert(at, text, ca, cb, ts)
    case Replace(at, oldText, newText, cb, ca, ts) => Replace(at, newText, oldText, ca, cb, ts)
  }

  /** The same for `IndentLines`: redo after undo gives back the indented rope. */
  lemma IndentRedoAfterUndo(ls: seq<string>, lines: seq<nat>, added: string)
    requires Rope.IsLines(ls) && Rope.BreakFree(added) && ListsOnly(lines, |ls|)
    ensures var c := IndentLines(lines, added, 0, 0, 0);
      var s := Rope.Join(Indented(ls, lines, added));
      Execute(c, Undo(c, Some(s))) == Some(s)
  {
    UnindentAllLines(ls, lines, added);
    IndentAllLines(ls, lines, added);
  }

  /**
   * `try_merge`: consecutive typing or deleting within 300 ms becomes one
   * command, unless either text holds a line break. Typing merges when the
   * next insert starts where the first ended; deleting merges backwards
   * (backspace) or at the same offset (delete key). The merged command keeps
   * the first cursor-before and takes the next command's cursor-after and
   * timestamp.
   */
  function TryMerge(first: Command, next: Command): Option<Command>
  {
    match (first, next)
    case (Insert(at1, text1, cb1, _, ts1), Insert(at2, text2, _, ca2, ts2)) =>
      if ContainsChar(text1, '\n') || ContainsChar(text2, '\n') then None
      else if at2 == at1 + |text1| && TextInputCommand.ElapsedMs(ts1, ts2) < TextInputCommand.MaxMergeDelayMs then
        Some(Insert(at1, text1 + text2, cb1, ca2, ts2))
      else None
    case (Delete(at1, text1, cb1, _, ts1), Delete(at2, text2, _, ca2, ts2)) =>
      if ContainsChar(text1, '\n') || ContainsChar(text2, '\n') then None
      else if at2 + |text2| == at1 && TextInputCommand.ElapsedMs(ts1, ts2) < TextInputCommand.MaxMergeDelayMs then
        Some(Delete(at2, text2 + text1, cb1, ca2, ts2))
      else if at1 == at2 && TextInputCommand.ElapsedMs(ts1, ts2) < TextInputCommand.MaxMergeDelayMs then
        Some(Delete(at1, text1 + text2, cb1, ca2, ts2))
      else None
    case _ => None
  }

  /** A merge needs two inserts or two deletes, quick and free of line breaks; the merged command spans both cursors and takes the later time. */
  lemma MergeShape(first: Command, next: Command)
    requires TryMerge(first, next).Some?
    ensures var m := TryMerge(first, next).value;
      ((first.Insert? && next.Insert? && m.Insert?) || (first.Delete? && next.Delete? && m.Delete?))
      && !ContainsChar(first.text, '\n') && !ContainsChar(next.text, '\n')
      && TextInputCommand.ElapsedMs(first.timestamp, next.timestamp) < TextInputCommand.MaxMergeDelayMs
      && m.cursorBefore == first.cursorBefore && m.cursorAfter == next.cursorAfter
      && m.timestamp == next.timestamp
  {
  }

  /** Every quick, break-free pair of adjacent inserts or deletes does merge. */
  lemma MergeAccepts(first: Command, next: Command)
    requires (first.Insert? && next.Insert?) || (first.Delete? && next.Delete?)
    requires !ContainsChar(first.text, '\n') && !ContainsChar(next.text, '\n')
    requires TextInputCommand.ElapsedMs(first.timestamp, next.timestamp) < TextInputCommand.MaxMergeDelayMs
    requires first.Insert? ==> next.at == first.at + |first.text|
    requires first.Delete? ==> next.at + |next.text| == first.at || next.at == first.at
    ensures TryMerge(first, next).Some?
  {
  }

  /** Executing the merged command is executing the two in turn, on every rope. */
  lemma MergedEqualsSequence(first: Command, next: Command, state: Option<string>)
    requires TryMerge(first, next).Some?
    ensures Execute(TryMerge(first, next).value, state) == Execute(next, Execute(first, state))
  {
    if first.Insert? {
      Rope.InsertTwice(state, first.at, first.text, next.text);
    } else if next.at + |next.text| == first.at {
      Rope.RemoveAdjacent(state, next.at, first.at, first.at + |first.text|);
    } else {
      Rope.RemoveSameSpot(state, first.at, |first.text|, |next.text|);
    }
  }

  /** Undoing the merged command is undoing the two, the later first. */
  lemma MergedUndoEqualsSequence(first: Command, next: Command, state: Option<string>)
    requires TryMerge(first, next).Some?
    ensures Undo(TryMerge(first, next).value, state) == Undo(first, Undo(next, state))
  {
    if first.Insert? {
      Rope.RemoveAdjacent(state, first.at, next.at, next.at + |next.text|);
    } else if next.at + |next.text| == first.at {
      Rope.InsertTwice(state, next.at, next.text, first.text);
    } else {
      Rope.InsertSameSpot(state, first.at, first.text, next.text);
    }
  }
}
