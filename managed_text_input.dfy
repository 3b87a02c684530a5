// `ManagedTextInput` (src/ui/managed_text_input.rs): a text input whose
// value changes are recorded in a snapshot history with time-based
// grouping. Timestamps are milliseconds since the epoch held in a `u64`;
// the clock read is a `now` parameter.

module ManagedTextInput {
  import opened Snapshots

  const U64Limit: int := 0x1_0000_0000_0000_0000

  newtype u64 = x: int | 0 <= x < U64Limit

  /** `max_history` as `new` sets it. */
  const MaxHistory: nat := 50

  /** `grouping_threshold_ms` as `new` sets it. */
  const GroupingThresholdMs: u64 := 200

  datatype HistoryEntry = HistoryEntry(value: string, timestamp: u64)

  /** `u64` subtraction as a release build does it: modulo 2^64, so an earlier `a` wraps to a huge difference. */
  function WrappingSub(a: u64, b: u64): (d: u64)
    ensures b <= a ==> (b as int) + (d as int) == a as int
    ensures a < b ==> (d as int) == (a as int) - (b as int) + U64Limit
  {
    if b <= a then a - b else ((a as int) - (b as int) + U64Limit) as u64
  }

  /**
   * A clock that went back never groups, unless it went back by almost the
   * whole range of `u64`: only a wrapped difference within the threshold
   * would group.
   */
  lemma BackwardsClockNeverGroups(now: u64, last: u64)
    requires now < last && (last as int) - (now as int) < U64Limit - (GroupingThresholdMs as int)
    ensures WrappingSub(now, last) > GroupingThresholdMs
  {
  }

  /**
   * The history after `push_to_history` records `e`: the entries after the
   * index are dropped first; if `e` comes within the threshold of what is
   * then the last entry, it replaces that entry; otherwise it is appended
   * and the oldest entry goes once more than `MaxHistory` remain.
   */
  function Recorded(h: seq<HistoryEntry>, index: nat, e: HistoryEntry): (r: seq<HistoryEntry>)
    requires index < |h| <= MaxHistory
    ensures 1 <= |r| <= MaxHistory && r[|r| - 1] == e
    ensures WrappingSub(e.timestamp, h[index].timestamp) <= GroupingThresholdMs ==>
      |r| == index + 1 && r[..index] == h[..index]
    ensures WrappingSub(e.timestamp, h[index].timestamp) > GroupingThresholdMs && index + 1 < MaxHistory ==>
      |r| == index + 2 && r[..index + 1] == h[..index + 1]
    ensures WrappingSub(e.timestamp, h[index].timestamp) > GroupingThresholdMs && index + 1 == MaxHistory ==>
      |r| == MaxHistory && r[..MaxHistory - 1] == h[1..]
  {
    if WrappingSub(e.timestamp, h[index].timestamp) <= GroupingThresholdMs then
      assert h[..index + 1][index := e][..index] == h[..index];
      h[..index + 1][index := e]
    else
      AppendedWithinCap(h, index, e, MaxHistory);
      Appended(h, index, e, MaxHistory)
  }

  class Input {
    var value: string
    var isFocused: bool
    var history: seq<HistoryEntry>
    var historyIndex: nat

    predicate Valid()
      reads this
    {
      1 <= |history| <= MaxHistory && historyIndex < |history|
    }

    /** The value is the one the current entry holds; only `set_value_without_history` breaks this. */
    predicate Synced()
      reads this
      requires Valid()
    {
      value == history[historyIndex].value
    }

    /** `ManagedTextInput::new`: an empty value and a single empty entry taken at `now`. */
    constructor (now: u64)
      ensures Valid() && Synced()
      ensures value == [] && !isFocused && history == [HistoryEntry([], now)] && historyIndex == 0
    {
      value := [];
      isFocused := false;
      history := [HistoryEntry([], now)];
      historyIndex := 0;
    }

    /** `with_value`: the value, and a history restarted with that value as its only entry. */
    method WithValue(v: string, now: u64)
      modifies this
      ensures Valid() && Synced()
      ensures value == v && history == [HistoryEntry(v, now)] && historyIndex == 0
      ensures isFocused == old(isFocused)
    {
      value := v;
      history := [HistoryEntry(v, now)];
      historyIndex := 0;
    }

    /** `push_to_history`: records the value at `now` and points the index at it. */
    method PushToHistory(v: string, now: u64)
      requires Valid()
      modifies this
      ensures Valid()
      ensures history == Recorded(old(history), old(historyIndex), HistoryEntry(v, now))
      ensures historyIndex == |history| - 1
      ensures value == old(value) && isFocused == old(isFocused)
    {
      if historyIndex < |history| - 1 {
        history := history[..historyIndex + 1];
      }
      assert history == old(history)[..old(historyIndex) + 1];
      var entry := HistoryEntry(v, now);
      var last := history[|history| - 1];
      var timeDiff := WrappingSub(entry.timestamp, last.timestamp);
      if timeDiff <= GroupingThresholdMs && historyIndex == |history| - 1 {
        history := history[historyIndex := entry];
        return;
      }
      history := history + [entry];
      historyIndex := |history| - 1;
      if |history| > MaxHistory {
        history := history[1..];
        historyIndex := |history| - 1;
      }
    }

    /** `set_value`: a different value replaces the old one and is recorded; the same value changes nothing. */
    method SetValue(v: string, now: u64)
      requires Valid()
      modifies this
      ensures Valid() && value == v
      ensures v != old(value) ==> (Synced()
        && history == Recorded(old(history), old(historyIndex), HistoryEntry(v, now)) && historyIndex == |history| - 1)
      ensures v == old(value) ==> history == old(history) && historyIndex == old(historyIndex)
      ensures isFocused == old(isFocused)
    {
      if value != v {
        value := v;
        PushToHistory(v, now);
      }
    }

    /** `set_value_without_history`: the value alone changes. */
    method SetValueWithoutHistory(v: string)
      modifies this`value
      ensures value == v
    {
      value := v;
    }

    /** `undo`: false at the first entry; otherwise one entry back, whose value becomes the value. */
    method Undo() returns (done: bool)
      requires Valid()
      modifies this`value, this`historyIndex
      ensures Valid() && done == (old(historyIndex) > 0)
      ensures historyIndex == UndoIndex(old(historyIndex))
      ensures done ==> Synced()
      ensures !done ==> value == old(value)
    {
      if historyIndex > 0 {
        historyIndex := historyIndex - 1;
        value := history[historyIndex].value;
        return true;
      }
      return false;
    }

    /** `redo`: false at the last entry; otherwise one entry forward, whose value becomes the value. */
    method Redo() returns (done: bool)
      requires Valid()
      modifies this`value, this`historyIndex
      ensures Valid() && done == (old(historyIndex) + 1 < |history|)
      ensures historyIndex == RedoIndex(old(historyIndex), |history|)
      ensures done ==> Synced()
      ensures !done ==> value == old(value)
    {
      if historyIndex < |history| - 1 {
        historyIndex := historyIndex + 1;
        value := history[historyIndex].value;
        return true;
      }
      return false;
    }

    method SetFocused(focused: bool)
      modifies this`isFocused
      ensures isFocused == focused
    {
      isFocused := focused;
    }
  }

  /** On a synced input, undo followed by redo returns to the same entry and value. */
  method UndoThenRedo(input: Input)
    requires input.Valid() && input.Synced() && input.historyIndex > 0
    modifies input
    ensures input.Valid() && input.Synced()
    ensures input.history == old(input.history) && input.historyIndex == old(input.historyIndex)
    ensures input.value == old(input.value)
  {
    var undone := input.Undo();
    var redone := input.Redo();
  }
}
