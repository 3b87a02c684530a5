// Match finding in the request and response bodies (`perform_search` and
// `perform_response_search` in src/main.rs, which are the same code over
// two different panels). Offsets here count chars of the document's text;
// `Document.PositionOffset` turns a cursor position into the offset the
// search starts from.

module Search {
  import opened Wrappers

  /** `q` occurs in `text` starting at `i`. */
  predicate MatchAt<T(==)>(text: seq<T>, q: seq<T>, i: nat)
  {
    i + |q| <= |text| && text[i..i + |q|] == q
  }

  /** `text[lo..hi].find(q)`, as an offset into `text`: the first occurrence lying wholly inside `[lo, hi)`. */
  function FindIn<T(==)>(text: seq<T>, q: seq<T>, lo: nat, hi: nat): (r: Option<nat>)
    requires lo <= hi <= |text|
    ensures r.Some? ==> lo <= r.value && r.value + |q| <= hi && MatchAt(text, q, r.value)
    ensures forall j: nat :: lo <= j && j + |q| <= hi && (r.None? || j < r.value) ==> !MatchAt(text, q, j)
    decreases hi - lo
  {
    if lo + |q| > hi then None
    else if text[lo..lo + |q|] == q then Some(lo)
    else FindIn(text, q, lo + 1, hi)
  }

  /** `text[lo..hi].rfind(q)`, as an offset into `text`: the last occurrence lying wholly inside `[lo, hi)`. */
  function RFindIn<T(==)>(text: seq<T>, q: seq<T>, lo: nat, hi: nat): (r: Option<nat>)
    requires lo <= hi <= |text|
    ensures r.Some? ==> lo <= r.value && r.value + |q| <= hi && MatchAt(text, q, r.value)
    ensures forall j: nat :: lo <= j && j + |q| <= hi && (r.None? || j > r.value) ==> !MatchAt(text, q, j)
    decreases hi - lo
  {
    if lo + |q| > hi then None
    else
      var last: nat := hi - |q|;
      if text[last..hi] == q then Some(last)
      else
        assert !MatchAt(text, q, last);
        RFindIn(text, q, lo, hi - 1)
  }

  /** Where the forward search begins as written: one char past the current offset, unless that is the end. */
  function NextStart<T>(text: seq<T>, current: nat): nat
  {
    if current < |text| then current + 1 else current
  }

  /**
   * The forward search as written: the first occurrence in
   * `text[start..]`, else the first occurrence in `text[..start]`, where
   * `start` is one char past the current offset.
   */
  function ForwardAsWritten<T(==)>(text: seq<T>, q: seq<T>, current: nat): (r: Option<nat>)
    requires current <= |text|
    ensures r.Some? ==> MatchAt(text, q, r.value)
    ensures var start := NextStart(text, current);
      (exists j: nat :: start <= j && MatchAt(text, q, j)) ==>
        r.Some? && start <= r.value && forall j: nat :: start <= j < r.value ==> !MatchAt(text, q, j)
    ensures var start := NextStart(text, current);
      (forall j: nat :: start <= j ==> !MatchAt(text, q, j)) ==>
        (r.Some? <==> exists j: nat :: j + |q| <= start && MatchAt(text, q, j))
        && (r.Some? ==> r.value + |q| <= start && forall j: nat :: j < r.value ==> !MatchAt(text, q, j))
  {
    var start := NextStart(text, current);
    var after := FindIn(text, q, start, |text|);
    if after.Some? then after else FindIn(text, q, 0, start)
  }

  /** After selecting the first "ab" of "abab" (so the offset is 2), the next search selects the same "ab" again. */
  lemma ForwardAsWrittenRepeatsMatch()
    ensures MatchAt("abab", "ab", 2)
    ensures ForwardAsWritten("abab", "ab", 2) == Some(0)
  {
    assert "abab"[2..4] == "ab";
    assert |"abab"[3..4]| != |"ab"|;
    assert FindIn("abab", "ab", 3, 4) == None;
    assert "abab"[0..2] == "ab";
  }

  /** With the cursor at offset 1 of "xaby", the search reports no match although "ab" occurs there. */
  lemma ForwardAsWrittenMissesMatch()
    ensures MatchAt("xaby", "ab", 1)
    ensures ForwardAsWritten("xaby", "ab", 1) == None
  {
    assert "xaby"[1..3] == "ab";
    assert "xaby"[2..4][0] != "ab"[0];
    assert FindIn("xaby", "ab", 2, 4) == None;
    assert "xaby"[0..2] != "ab";
    assert FindIn("xaby", "ab", 0, 2) == None;
  }

  /**
   * The forward search: the first occurrence starting at or after the
   * current offset (the end of the current match), else, wrapping around,
   * the first occurrence in the whole text. It finds a match exactly when
   * the query occurs, and the match it finds is the next one.
   */
  function Forward<T(==)>(text: seq<T>, q: seq<T>, current: nat): (r: Option<nat>)
    requires current <= |text|
    ensures r.Some? ==> MatchAt(text, q, r.value)
    ensures r.Some? <==> exists j: nat :: MatchAt(text, q, j)
    ensures (exists j: nat :: current <= j && MatchAt(text, q, j)) ==>
      r.Some? && current <= r.value && forall j: nat :: current <= j < r.value ==> !MatchAt(text, q, j)
    ensures (forall j: nat :: current <= j ==> !MatchAt(text, q, j)) ==>
      r.None? || forall j: nat :: j < r.value ==> !MatchAt(text, q, j)
  {
    var after := FindIn(text, q, current, |text|);
    if after.Some? then after else FindIn(text, q, 0, |text|)
  }

  /**
   * The backward search, as written: the last occurrence lying wholly
   * before the current offset; if that one ends exactly at the current
   * offset, the last occurrence before its start instead. Failing either,
   * it wraps to the last occurrence lying wholly after the current offset.
   * A match it reports never ends at the current offset (for a non-empty
   * query). When no occurrence ends exactly there, it is the last
   * occurrence lying wholly before the current offset, or when there is
   * none, the last one lying wholly after it. When one does (the usual
   * state right after a match is selected), it is the last occurrence
   * lying wholly before that match, or when there is none, the last one
   * lying wholly after the current offset.
   */
  function Backward<T(==)>(text: seq<T>, q: seq<T>, current: nat): (r: Option<nat>)
    requires current <= |text|
    ensures r.Some? ==> MatchAt(text, q, r.value) && (|q| > 0 ==> r.value + |q| != current)
    ensures (forall j: nat :: MatchAt(text, q, j) ==> j + |q| != current) ==>
      ((exists j: nat :: j + |q| <= current && MatchAt(text, q, j)) ==>
        r.Some? && r.value + |q| <= current && forall j: nat :: r.value < j && j + |q| <= current ==> !MatchAt(text, q, j))
      && ((forall j: nat :: j + |q| <= current ==> !MatchAt(text, q, j)) ==>
        (r.Some? <==> exists j: nat :: current <= j && MatchAt(text, q, j))
        && (r.Some? ==> current <= r.value && forall j: nat :: r.value < j ==> !MatchAt(text, q, j)))
    ensures (exists j: nat :: MatchAt(text, q, j) && j + |q| == current) ==>
      ((exists j: nat :: j + |q| + |q| <= current && MatchAt(text, q, j)) ==>
        r.Some? && r.value + |q| + |q| <= current
        && forall j: nat :: r.value < j && j + |q| + |q| <= current ==> !MatchAt(text, q, j))
      && ((forall j: nat :: j + |q| + |q| <= current ==> !MatchAt(text, q, j)) ==>
        (r.Some? <==> exists j: nat :: current <= j && MatchAt(text, q, j))
        && (r.Some? ==> current <= r.value && forall j: nat :: r.value < j ==> !MatchAt(text, q, j)))
  {
    match RFindIn(text, q, 0, current)
    case Some(m) =>
      if m + |q| == current then
        var previous := RFindIn(text, q, 0, m);
        if previous.Some? then previous else RFindIn(text, q, current, |text|)
      else Some(m)
    case None => RFindIn(text, q, current, |text|)
  }

  /** With the last "aa" of "aaaa" selected (offset 4), the backward search passes over the overlapping one at 1 and selects the one at 0. */
  lemma BackwardSkipsSelected()
    ensures MatchAt("aaaa", "aa", 1) && MatchAt("aaaa", "aa", 2)
    ensures Backward("aaaa", "aa", 4) == Some(0)
  {
    assert "aaaa"[2..4] == "aa";
    assert "aaaa"[1..3] == "aa";
    assert "aaaa"[0..2] == "aa";
  }

  /** What a search reports: nothing for an empty query, a match as its start and end offsets, or no match. */
  datatype SearchOutcome = NoSearch | Found(start: nat, end: nat) | NotFound

  /**
   * One search step: an empty query does nothing; otherwise the forward
   * search as written (from one char past the current offset) or the
   * backward search runs and its result, if any, is reported as the
   * match's start and end.
   */
  method PerformSearch<T(==)>(text: seq<T>, query: seq<T>, current: nat, next: bool) returns (outcome: SearchOutcome)
    requires current <= |text|
    ensures |query| == 0 <==> outcome == NoSearch
    ensures outcome.Found? ==> outcome.end == outcome.start + |query| && MatchAt(text, query, outcome.start)
    ensures |query| > 0 && next ==>
      (outcome.Found? <==> ForwardAsWritten(text, query, current).Some?)
      && (outcome.Found? ==> outcome.start == ForwardAsWritten(text, query, current).value)
    ensures |query| > 0 && !next ==>
      (outcome.Found? <==> Backward(text, query, current).Some?)
      && (outcome.Found? ==> outcome.start == Backward(text, query, current).value)
  {
    if |query| == 0 {
      return NoSearch;
    }
    var foundMatch := false;
    var matchStart := 0;
    if next {
      var start := if current < |text| then current + 1 else current;
      var after := FindIn(text, query, start, |text|);
      if after.Some? {
        matchStart, foundMatch := after.value, true;
      } else {
        var wrapped := FindIn(text, query, 0, start);
        if wrapped.Some? {
          matchStart, foundMatch := wrapped.value, true;
        }
      }
    } else {
      var before := RFindIn(text, query, 0, current);
      if before.Some? {
        matchStart := before.value;
        if matchStart + |query| == current {
          var previous := RFindIn(text, query, 0, matchStart);
          if previous.Some? {
            matchStart, foundMatch := previous.value, true;
          } else {
            var last := RFindIn(text, query, current, |text|);
            if last.Some? {
              matchStart, foundMatch := last.value, true;
            }
          }
        } else {
          foundMatch := true;
        }
      } else {
        var last := RFindIn(text, query, current, |text|);
        if last.Some? {
          matchStart, foundMatch := last.value, true;
        }
      }
    }
    if foundMatch {
      return Found(matchStart, matchStart + |query|);
    }
    return NotFound;
  }
}
