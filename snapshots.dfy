// The snapshot histories of the text inputs and the demo applications
// (src/ui/custom_text_input.rs, src/ui/managed_text_input.rs,
// examples/custom_text_input_demo.rs, examples/url_input_demo.rs) all keep
// a vector of entries and an index into it. Recording a new entry drops
// everything after the index, appends the entry, and drops the oldest entry
// when more than the cap remain; the index then points at the new entry.

module Snapshots {

  /** The entries after recording `e` at `index` with at most `cap` entries kept. */
  function Appended<E>(h: seq<E>, index: nat, e: E, cap: nat): (r: seq<E>)
    requires index < |h|
    ensures |r| >= 1 && r[|r| - 1] == e
    ensures r[..|r| - 1] == if index + 2 > cap then h[1..index + 1] else h[..index + 1]
  {
    var kept := h[..index + 1] + [e];
    assert kept[..|kept| - 1] == h[..index + 1];
    if |kept| > cap then
      assert kept[1..][..|kept| - 2] == h[1..index + 1];
      kept[1..]
    else kept
  }

  /**
   * Within the cap before, within the cap after: the history grows by one
   * entry until it is full and then keeps its length, and the entries kept
   * before the new one are, in order, those up to the index, less the
   * oldest exactly when the history is full.
   */
  lemma AppendedWithinCap<E>(h: seq<E>, index: nat, e: E, cap: nat)
    requires index < |h| <= cap
    ensures var r := Appended(h, index, e, cap);
      |r| <= cap
      && (index + 1 < cap ==> |r| == index + 2 && r[..index + 1] == h[..index + 1])
      && (index + 1 == cap ==> |r| == cap && r[..cap - 1] == h[1..cap])
  {
    var r := Appended(h, index, e, cap);
    assert |r| == |r[..|r| - 1]| + 1;
  }

  /** The index `undo` moves to: one step back, unless already at the first entry. */
  function UndoIndex(index: nat): (r: nat)
    ensures index > 0 ==> r + 1 == index
    ensures index == 0 ==> r == 0
  {
    if index > 0 then index - 1 else index
  }

  /** The index `redo` moves to: one step forward, unless already at the last entry. */
  function RedoIndex(index: nat, length: nat): (r: nat)
    ensures index + 1 < length ==> r == index + 1
    ensures index + 1 >= length ==> r == index
  {
    if index + 1 < length then index + 1 else index
  }

  /** A step back followed by a step forward returns to the same entry, and so does a step forward followed by a step back. */
  lemma UndoRedoInverse(index: nat, length: nat)
    requires index < length
    ensures index > 0 ==> RedoIndex(UndoIndex(index), length) == index
    ensures index + 1 < length ==> UndoIndex(RedoIndex(index, length)) == index
  {
  }
}
