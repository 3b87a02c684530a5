/**
 * The generic undo/redo history of `src/history/mod.rs`: two stacks of
 * commands and a size cap. A command's `try_merge`, `execute` and `undo`
 * are passed in as functions, since the Rust `Command` trait is generic
 * over the command and the state it edits; a state edited in place is
 * modelled as a value that goes in and comes out.
 */
module History {
  import opened Wrappers

  /** The cap `History::new` uses. */
  const DefaultMaxSize: nat := 1000

  /** `push` without a merge: when the stack has reached the cap its oldest command is dropped (`pop_front` on an empty stack drops nothing). */
  function Evicted<C>(stack: seq<C>, maxSize: nat): seq<C>
  {
    if |stack| >= maxSize && |stack| > 0 then stack[1..] else stack
  }

  /** The undo stack after `push(cmd)`: the top command absorbs `cmd` when `tryMerge` succeeds, otherwise `cmd` is appended after eviction. */
  function Pushed<C>(stack: seq<C>, cmd: C, maxSize: nat, tryMerge: (C, C) -> Option<C>): seq<C>
  {
    if |stack| > 0 && tryMerge(stack[|stack| - 1], cmd).Some? then
      stack[..|stack| - 1] + [tryMerge(stack[|stack| - 1], cmd).value]
    else
      Evicted(stack, maxSize) + [cmd]
  }

  /** The most commands the two stacks hold together: a cap of 0 still lets one command in, because eviction happens before the append. */
  function Capacity(maxSize: nat): nat
  {
    if maxSize == 0 then 1 else maxSize
  }

  /** `push` either rewrites the top command or appends `cmd`; older commands keep their order, and at most the oldest is lost. */
  lemma PushedShape<C>(stack: seq<C>, cmd: C, maxSize: nat, tryMerge: (C, C) -> Option<C>)
    ensures var r := Pushed(stack, cmd, maxSize, tryMerge);
      if |stack| > 0 && tryMerge(stack[|stack| - 1], cmd).Some? then
        |r| == |stack| && r[..|r| - 1] == stack[..|stack| - 1]
        && r[|r| - 1] == tryMerge(stack[|stack| - 1], cmd).value
      else
        r[|r| - 1] == cmd
        && (if |stack| < maxSize || stack == [] then r[..|r| - 1] == stack else r[..|r| - 1] == stack[1..])
  {
  }

  /** A push never lets the undo stack grow past the cap (for a cap of at least one). */
  lemma PushedWithinCap<C>(stack: seq<C>, cmd: C, maxSize: nat, tryMerge: (C, C) -> Option<C>)
    requires |stack| <= Capacity(maxSize)
    ensures 1 <= |Pushed(stack, cmd, maxSize, tryMerge)| <= Capacity(maxSize)
    ensures maxSize >= 1 ==> |Pushed(stack, cmd, maxSize, tryMerge)| <= maxSize
  {
  }

  class History<C> {
    var undoStack: seq<C>
    var redoStack: seq<C>
    const maxSize: nat

    /** Undo and redo only move commands between the stacks and a push empties the redo stack, so together they stay within the cap. */
    ghost predicate Valid()
      reads this
    {
      |undoStack| + |redoStack| <= Capacity(maxSize)
    }

    /** `History::new`: empty stacks, cap 1000. */
    constructor ()
      ensures Valid() && undoStack == [] && redoStack == [] && maxSize == DefaultMaxSize
    {
      undoStack, redoStack, maxSize := [], [], DefaultMaxSize;
    }

    /** `History::with_capacity`: empty stacks, the given cap. */
    constructor WithCapacity(maxSize: nat)
      ensures Valid() && undoStack == [] && redoStack == [] && this.maxSize == maxSize
    {
      undoStack, redoStack, this.maxSize := [], [], maxSize;
    }

    /** `push`: the redo stack is cleared, then the command is merged into the top or appended after eviction. */
    method Push(cmd: C, tryMerge: (C, C) -> Option<C>)
      requires Valid()
      modifies this
      ensures Valid()
      ensures redoStack == []
      ensures undoStack == Pushed(old(undoStack), cmd, maxSize, tryMerge)
    {
      redoStack := [];
      if |undoStack| > 0 {
        var merged := tryMerge(undoStack[|undoStack| - 1], cmd);
        if merged.Some? {
          undoStack := undoStack[..|undoStack| - 1] + [merged.value];
          return;
        }
      }
      if |undoStack| >= maxSize && |undoStack| > 0 {
        undoStack := undoStack[1..];
      }
      undoStack := undoStack + [cmd];
    }

    /** `undo`: with no command it reports false and changes nothing; otherwise the top command is reverted on the state and moved to the redo stack. */
    method Undo<S>(state: S, revert: (C, S) -> S) returns (done: bool, next: S)
      requires Valid()
      modifies this
      ensures Valid()
      ensures done == (old(undoStack) != [])
      ensures !done ==> undoStack == old(undoStack) && redoStack == old(redoStack) && next == state
      ensures done ==> var top := old(undoStack)[|old(undoStack)| - 1];
        undoStack == old(undoStack)[..|old(undoStack)| - 1]
        && redoStack == old(redoStack) + [top]
        && next == revert(top, state)
    {
      if |undoStack| == 0 {
        return false, state;
      }
      var cmd := undoStack[|undoStack| - 1];
      undoStack := undoStack[..|undoStack| - 1];
      next := revert(cmd, state);
      redoStack := redoStack + [cmd];
      done := true;
    }

    /** `redo`: the mirror image of `undo`, re-executing the top of the redo stack. */
    method Redo<S>(state: S, execute: (C, S) -> S) returns (done: bool, next: S)
      requires Valid()
      modifies this
      ensures Valid()
      ensures done == (old(redoStack) != [])
      ensures !done ==> undoStack == old(undoStack) && redoStack == old(redoStack) && next == state
      ensures done ==> var top := old(redoStack)[|old(redoStack)| - 1];
        redoStack == old(redoStack)[..|old(redoStack)| - 1]
        && undoStack == old(undoStack) + [top]
        && next == execute(top, state)
    {
      if |redoStack| == 0 {
        return false, state;
      }
      var cmd := redoStack[|redoStack| - 1];
      redoStack := redoStack[..|redoStack| - 1];
      next := execute(cmd, state);
      undoStack := undoStack + [cmd];
      done := true;
    }

    function CanUndo(): (b: bool)
      reads this
      ensures b <==> |undoStack| > 0
    {
      undoStack != []
    }

    function CanRedo(): (b: bool)
      reads this
      ensures b <==> |redoStack| > 0
    {
      redoStack != []
    }
  }

  /**
   * Undo followed by redo gives back both stacks and, when `revert` is
   * undone by `execute`, the state as well.
   */
  method UndoThenRedo<C, S>(h: History<C>, state: S, execute: (C, S) -> S, revert: (C, S) -> S)
      returns (next: S)
    requires h.Valid() && h.undoStack != []
    requires forall c, s :: execute(c, revert(c, s)) == s
    modifies h
    ensures h.Valid()
    ensures h.undoStack == old(h.undoStack) && h.redoStack == old(h.redoStack)
    ensures next == state
  {
    var undone, mid := h.Undo(state, revert);
    var redone;
    redone, next := h.Redo(mid, execute);
  }
}
