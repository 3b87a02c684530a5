/**
 * The part of the `ropey` rope that the text editor's commands use, on a
 * rope modelled as its sequence of chars. Offsets are char offsets, and a
 * line ends at '\n'. A call on which ropey panics gives `None`.
 */
module Rope {
  import opened Wrappers
  import opened Strings

  /** `Rope::insert`: `t` goes in before char `at`; an `at` past the end panics. */
  function Insert(s: string, at: nat, t: string): (r: Option<string>)
    ensures r.Some? <==> at <= |s|
    ensures r.Some? ==> |r.value| == |s| + |t|
  {
    if at <= |s| then Some(s[..at] + t + s[at..]) else None
  }

  /** `Rope::remove(start..end)`: a range running backwards or past the end panics. */
  function Remove(s: string, start: nat, end: nat): (r: Option<string>)
    ensures r.Some? <==> start <= end <= |s|
    ensures r.Some? ==> |r.value| + (end - start) == |s|
  {
    if start <= end <= |s| then Some(s[..start] + s[end..]) else None
  }

  /** `Insert` on a rope that may already have panicked. */
  function InsertInto(state: Option<string>, at: nat, t: string): (r: Option<string>)
    ensures r.Some? <==> state.Some? && at <= |state.value|
  {
    match state
    case None => None
    case Some(s) => Insert(s, at, t)
  }

  /** `Remove` on a rope that may already have panicked. */
  function RemoveFrom(state: Option<string>, start: nat, end: nat): (r: Option<string>)
    ensures r.Some? <==> state.Some? && start <= end <= |state.value|
  {
    match state
    case None => None
    case Some(s) => Remove(s, start, end)
  }

  /** Typing `t1` and then `t2` right after it is typing `t1 + t2`. */
  lemma InsertTwice(state: Option<string>, at: nat, t1: string, t2: string)
    ensures InsertInto(InsertInto(state, at, t1), at + |t1|, t2) == InsertInto(state, at, t1 + t2)
  {
    if state.Some? && at <= |state.value| {
      var s := state.value;
      var s1 := s[..at] + t1 + s[at..];
      assert s1[..at + |t1|] == s[..at] + t1 && s1[at + |t1|..] == s[at..];
      assert s[..at] + t1 + t2 + s[at..] == s[..at] + (t1 + t2) + s[at..];
    }
  }

  /** Inserting `t2` and then `t1` at the same place is inserting `t1 + t2` there. */
  lemma InsertSameSpot(state: Option<string>, at: nat, t1: string, t2: string)
    ensures InsertInto(InsertInto(state, at, t2), at, t1) == InsertInto(state, at, t1 + t2)
  {
    if state.Some? && at <= |state.value| {
      var s := state.value;
      var s1 := s[..at] + t2 + s[at..];
      assert s1[..at] == s[..at] && s1[at..] == t2 + s[at..];
      assert s[..at] + t1 + (t2 + s[at..]) == s[..at] + (t1 + t2) + s[at..];
    }
  }

  /** Removing `mid..end` and then the adjacent `start..mid` is removing `start..end`. */
  lemma RemoveAdjacent(state: Option<string>, start: nat, mid: nat, end: nat)
    requires start <= mid <= end
    ensures RemoveFrom(RemoveFrom(state, mid, end), start, mid) == RemoveFrom(state, start, end)
  {
    if state.Some? && end <= |state.value| {
      var s := state.value;
      var s1 := s[..mid] + s[end..];
      assert s1[..start] == s[..start] && s1[mid..] == s[end..];
    }
  }

  /** Removing `n1` chars at `at` and then `n2` more at the same place is removing `n1 + n2` there. */
  lemma RemoveSameSpot(state: Option<string>, at: nat, n1: nat, n2: nat)
    ensures RemoveFrom(RemoveFrom(state, at, at + n1), at, at + n2) == RemoveFrom(state, at, at + n1 + n2)
  {
    if state.Some? && at + n1 <= |state.value| {
      var s := state.value;
      var s1 := s[..at] + s[at + n1..];
      assert s1[..at] == s[..at];
      if at + n2 <= |s1| {
        assert s1[at + n2..] == s[at + n1 + n2..];
      }
    }
  }

  /** Removing what was just inserted gives the rope back. */
  lemma RemoveInserted(s: string, at: nat, t: string)
    requires at <= |s|
    ensures Insert(s, at, t).Some?
    ensures Remove(Insert(s, at, t).value, at, at + |t|) == Some(s)
  {
    var r := s[..at] + t + s[at..];
    assert r[..at] == s[..at] && r[at + |t|..] == s[at..];
    assert s[..at] + s[at..] == s;
  }

  /** Inserting back what was just removed gives the rope back. */
  lemma InsertRemoved(s: string, at: nat, t: string)
    requires at + |t| <= |s| && s[at..at + |t|] == t
    ensures Remove(s, at, at + |t|).Some?
    ensures Insert(Remove(s, at, at + |t|).value, at, t) == Some(s)
  {
    var r := s[..at] + s[at + |t|..];
    assert r[..at] == s[..at] && r[at..] == s[at + |t|..];
    assert s[..at] + s[at..at + |t|] + s[at + |t|..] == s;
  }

  /** An edit behind a fixed prefix `x` is the edit on the rest, shifted by `|x|`. */
  lemma InsertBehind(x: string, y: string, p: nat, t: string)
    requires p <= |y|
    ensures Insert(x + y, |x| + p, t) == Some(x + Insert(y, p, t).value)
  {
    assert (x + y)[..|x| + p] == x + y[..p];
    assert (x + y)[|x| + p..] == y[p..];
    assert x + y[..p] + t + y[p..] == x + (y[..p] + t + y[p..]);
  }

  lemma RemoveBehind(x: string, y: string, p: nat, q: nat)
    requires p <= q <= |y|
    ensures Remove(x + y, |x| + p, |x| + q) == Some(x + Remove(y, p, q).value)
  {
    assert (x + y)[..|x| + p] == x + y[..p];
    assert (x + y)[|x| + q..] == y[q..];
    assert x + y[..p] + y[q..] == x + (y[..p] + y[q..]);
  }

  lemma RemoveFront(t: string, rest: string, more: string)
    ensures Remove(t + rest + more, 0, |t|) == Some(rest + more)
  {
    var x := t + rest + more;
    assert x[..0] + x[|t|..] == rest + more;
  }

  predicate BreakFree(t: string)
  {
    forall i :: 0 <= i < |t| ==> t[i] != '\n'
  }

  /**
   * `Rope::line_to_char`: where line `line` starts. Line 0 starts at 0,
   * each later line right after a '\n'; one past the last line gives the
   * end of the rope, and further lines panic.
   */
  function LineToChar(s: string, line: nat): (r: Option<nat>)
    ensures r.Some? <==> line <= CountBreaks(s) + 1
    ensures r.Some? ==> r.value <= |s|
    ensures line == 0 ==> r == Some(0)
    ensures 0 < line <= CountBreaks(s) ==> 0 < r.value && s[r.value - 1] == '\n' && CountBreaks(s[..r.value]) == line
    ensures line == CountBreaks(s) + 1 ==> r == Some(|s|)
  {
    LineStartSpec(s, line);
    LineStart(s, line)
  }

  /** The number of line breaks in `s`. */
  function CountBreaks(s: string): nat
  {
    if |s| == 0 then 0 else (if s[0] == '\n' then 1 else 0) + CountBreaks(s[1..])
  }

  /**
   * Line `line` starts just past the `line`-th break, line `CountBreaks(s) + 1`
   * at the end, and lines further down do not exist.
   */
  lemma {:induction false} LineStartSpec(s: string, line: nat)
    ensures LineStart(s, line).Some? <==> line <= CountBreaks(s) + 1
    ensures 0 < line <= CountBreaks(s) ==>
      var v := LineStart(s, line).value; 0 < v <= |s| && s[v - 1] == '\n' && CountBreaks(s[..v]) == line
    ensures line == CountBreaks(s) + 1 ==> LineStart(s, line) == Some(|s|)
    decreases |s|
  {
    if line > 0 && |s| > 0 {
      var t := s[1..];
      var first := if s[0] == '\n' then 1 else 0;
      var next := line - first;
      LineStartSpec(t, next);
      assert LineStart(s, line) == Shift(LineStart(t, next), 1);
      if 0 < line <= CountBreaks(s) {
        var v := LineStart(s, line).value;
        assert s[..v][1..] == t[..v - 1];
        if next == 0 {
          assert v == 1 && s[0] == '\n';
        }
      }
    }
  }

  function LineStart(s: string, line: nat): (r: Option<nat>)
    ensures r.Some? ==> r.value <= |s|
    ensures r.Some? && r.value == 0 ==> line == 0 || |s| == 0
    ensures r.Some? && 0 < r.value < |s| ==> s[r.value - 1] == '\n'
  {
    if line == 0 then Some(0)
    else if |s| == 0 then (if line == 1 then Some(0) else None)
    else if s[0] == '\n' then Shift(LineStart(s[1..], line - 1), 1)
    else Shift(LineStart(s[1..], line), 1)
  }

  /** The rope whose lines, split at '\n', are `lines`. */
  function Join(lines: seq<string>): string
    requires |lines| > 0
  {
    if |lines| == 1 then lines[0] else lines[0] + "\n" + Join(lines[1..])
  }

  /** A list of lines a rope can be split into: at least one, none holding a break. */
  predicate IsLines(lines: seq<string>)
  {
    |lines| > 0 && forall k :: 0 <= k < |lines| ==> BreakFree(lines[k])
  }

  /** The rope's lines: what `Rope::lines` yields, without their breaks. */
  function SplitLines(s: string): (lines: seq<string>)
    ensures IsLines(lines)
  {
    if |s| == 0 then [""]
    else
      var rest := SplitLines(s[1..]);
      if s[0] == '\n' then [""] + rest else [[s[0]] + rest[0]] + rest[1..]
  }

  /** Splitting a rope into lines loses nothing: joining them gives it back. */
  lemma {:induction false} JoinSplitLines(s: string)
    ensures Join(SplitLines(s)) == s
  {
    if |s| > 0 {
      var rest := SplitLines(s[1..]);
      JoinSplitLines(s[1..]);
      if s[0] == '\n' {
        assert ([""] + rest)[1..] == rest;
        assert s == "" + "\n" + s[1..];
      } else {
        var lines := [[s[0]] + rest[0]] + rest[1..];
        if |rest| == 1 {
          assert s == [s[0]] + rest[0];
        } else {
          assert lines[1..] == rest[1..];
          assert Join(rest) == rest[0] + "\n" + Join(rest[1..]);
          assert s == [s[0]] + s[1..];
        }
      }
    }
  }

  /** Past a break-free line and its '\n', line numbers count from the next line. */
  lemma {:induction false} LineStartSkip(a: string, b: string, line: nat)
    requires BreakFree(a)
    ensures LineStart(a + "\n" + b, line + 1) == Shift(LineStart(b, line), |a| + 1)
  {
    var s := a + "\n" + b;
    if |a| == 0 {
      assert s[0] == '\n' && s[1..] == b;
    } else {
      assert s[0] == a[0] && s[1..] == a[1..] + "\n" + b;
      LineStartSkip(a[1..], b, line);
    }
  }

  /** Inserting at the start of line `l` puts the text in front of that line and leaves the others alone. */
  lemma {:induction false} InsertAtLine(lines: seq<string>, l: nat, t: string)
    requires IsLines(lines) && l < |lines|
    ensures LineToChar(Join(lines), l).Some?
    ensures Insert(Join(lines), LineToChar(Join(lines), l).value, t) == Some(Join(lines[l := t + lines[l]]))
  {
    if l == 0 {
      InsertAtFirstLine(lines, t);
    } else {
      var tail := lines[1..];
      assert IsLines(tail);
      InsertAtLine(tail, l - 1, t);
      assert lines[l := t + lines[l]][1..] == tail[l - 1 := t + tail[l - 1]];
      InsertAtLaterLine(lines, l, t);
    }
  }

  lemma InsertAtFirstLine(lines: seq<string>, t: string)
    requires |lines| > 0
    ensures Insert(Join(lines), 0, t) == Some(Join(lines[0 := t + lines[0]]))
  {
    var s := Join(lines);
    var after := lines[0 := t + lines[0]];
    if |lines| > 1 {
      assert after[1..] == lines[1..];
      assert Join(after) == (t + lines[0]) + "\n" + Join(lines[1..]);
      assert t + s == (t + lines[0]) + "\n" + Join(lines[1..]);
    }
    assert s[..0] + t + s[0..] == t + s;
  }

  /** The step of `InsertAtLine` past the first line. */
  lemma InsertAtLaterLine(lines: seq<string>, l: nat, t: string)
    requires 0 < l < |lines| && BreakFree(lines[0])
    requires LineToChar(Join(lines[1..]), l - 1).Some?
    requires Insert(Join(lines[1..]), LineToChar(Join(lines[1..]), l - 1).value, t)
      == Some(Join(lines[l := t + lines[l]][1..]))
    ensures LineToChar(Join(lines), l).Some?
    ensures Insert(Join(lines), LineToChar(Join(lines), l).value, t) == Some(Join(lines[l := t + lines[l]]))
  {
    var after := lines[l := t + lines[l]];
    assert Join(lines) == lines[0] + "\n" + Join(lines[1..]);
    assert Join(after) == lines[0] + "\n" + Join(after[1..]);
    LineStartSkip(lines[0], Join(lines[1..]), l - 1);
    var p := LineToChar(Join(lines[1..]), l - 1).value;
    InsertBehind(lines[0] + "\n", Join(lines[1..]), p, t);
  }

  /** Removing the first `|t|` chars of a line that starts with `t` takes exactly `t` off that line. */
  lemma {:induction false} RemoveAtLine(lines: seq<string>, l: nat, t: string, rest: string)
    requires IsLines(lines) && l < |lines| && lines[l] == t + rest
    ensures LineToChar(Join(lines), l).Some?
    ensures var k := LineToChar(Join(lines), l).value;
      Remove(Join(lines), k, k + |t|) == Some(Join(lines[l := rest]))
  {
    if l == 0 {
      RemoveAtFirstLine(lines, t, rest);
    } else {
      var tail := lines[1..];
      assert IsLines(tail);
      RemoveAtLine(tail, l - 1, t, rest);
      assert lines[l := rest][1..] == tail[l - 1 := rest];
      RemoveAtLaterLine(lines, l, |t|, rest);
    }
  }

  lemma RemoveAtFirstLine(lines: seq<string>, t: string, rest: string)
    requires IsLines(lines) && lines[0] == t + rest
    ensures Remove(Join(lines), 0, |t|) == Some(Join(lines[0 := rest]))
  {
    var after := lines[0 := rest];
    var more := if |lines| > 1 then "\n" + Join(lines[1..]) else "";
    if |lines| > 1 {
      assert after[1..] == lines[1..];
    }
    assert Join(lines) == t + rest + more && Join(after) == rest + more;
    RemoveFront(t, rest, more);
  }

  /** The step of `RemoveAtLine` past the first line. */
  lemma RemoveAtLaterLine(lines: seq<string>, l: nat, n: nat, rest: string)
    requires 0 < l < |lines| && BreakFree(lines[0])
    requires LineToChar(Join(lines[1..]), l - 1).Some?
    requires var k := LineToChar(Join(lines[1..]), l - 1).value;
      Remove(Join(lines[1..]), k, k + n) == Some(Join(lines[l := rest][1..]))
    ensures LineToChar(Join(lines), l).Some?
    ensures var k := LineToChar(Join(lines), l).value;
      Remove(Join(lines), k, k + n) == Some(Join(lines[l := rest]))
  {
    var after := lines[l := rest];
    assert Join(lines) == lines[0] + "\n" + Join(lines[1..]);
    assert Join(after) == lines[0] + "\n" + Join(after[1..]);
    RemoveUnderLine(lines[0], Join(lines[1..]), Join(after[1..]), l - 1, n);
  }

  /** A removal in the rope after a first line `a` is the removal in the rest, one line further down. */
  lemma RemoveUnderLine(a: string, b: string, b': string, line: nat, n: nat)
    requires BreakFree(a)
    requires LineToChar(b, line).Some?
    requires Remove(b, LineToChar(b, line).value, LineToChar(b, line).value + n) == Some(b')
    ensures LineToChar(a + "\n" + b, line + 1) == Some(|a| + 1 + LineToChar(b, line).value)
    ensures var k := LineToChar(a + "\n" + b, line + 1).value;
      Remove(a + "\n" + b, k, k + n) == Some(a + "\n" + b')
  {
    var p := LineToChar(b, line).value;
    LineToCharSkip(a, b, line);
    RemoveAfterLine(a, b, b', p, n);
  }

  lemma LineToCharSkip(a: string, b: string, line: nat)
    requires BreakFree(a)
    requires LineToChar(b, line).Some?
    ensures LineToChar(a + "\n" + b, line + 1) == Some(|a| + 1 + LineToChar(b, line).value)
  {
    LineStartSkip(a, b, line);
  }

  lemma RemoveAfterLine(a: string, b: string, b': string, p: nat, n: nat)
    requires Remove(b, p, p + n) == Some(b')
    ensures Remove(a + "\n" + b, |a| + 1 + p, |a| + 1 + p + n) == Some(a + "\n" + b')
  {
    RemoveBehind(a + "\n", b, p, p + n);
  }
}
