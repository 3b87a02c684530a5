/**
 * `TextInputCommand` of `src/history/mod.rs`: single-line edits of a Rust
 * `String`, addressed by BYTE offsets. The state is `Option<string>`:
 * `None` stands for a panic of `insert_str` / `replace_range` (an offset
 * that is not a char boundary or lies past the end), and stays `None`.
 */
module TextInputCommand {
  import opened Wrappers
  import opened Strings

  /** `try_merge` only merges commands less than 300 ms apart. */
  const MaxMergeDelayMs: nat := 300

  datatype Command =
    | Insert(at: nat, text: string, timestamp: nat)
    | Delete(at: nat, text: string, timestamp: nat)
    | Replace(at: nat, oldText: string, newText: string, timestamp: nat)

  /** `execute`: Insert inserts its text, Delete removes `text.len()` bytes, Replace swaps `old.len()` bytes for `new`. */
  function Execute(c: Command, state: Option<string>): Option<string>
  {
    match state
    case None => None
    case Some(s) =>
      match c
      case Insert(at, text, _) => InsertStr(s, at, text)
      case Delete(at, text, _) => ReplaceRange(s, at, at + ByteLen(text), "")
      case Replace(at, oldText, newText, _) => ReplaceRange(s, at, at + ByteLen(oldText), newText)
  }

  /** `undo`: the inverse edit of `execute`. */
  function Undo(c: Command, state: Option<string>): Option<string>
  {
    match state
    case None => None
    case Some(s) =>
      match c
      case Insert(at, text, _) => ReplaceRange(s, at, at + ByteLen(text), "")
      case Delete(at, text, _) => InsertStr(s, at, text)
      case Replace(at, oldText, newText, _) => ReplaceRange(s, at, at + ByteLen(newText), oldText)
  }

  /** The text a command takes out of the string when executed. */
  function Removed(c: Command): string
  {
    match c
    case Insert(_, _, _) => []
    case Delete(_, text, _) => text
    case Replace(_, oldText, _, _) => oldText
  }

  /** The text a command puts into the string when executed. */
  function Inserted(c: Command): string
  {
    match c
    case Insert(_, text, _) => text
    case Delete(_, _, _) => []
    case Replace(_, _, newText, _) => newText
  }

  /** Every command's `execute` is one `replace_range`: its removed bytes give way to its inserted text. */
  lemma ExecuteIsSplice(c: Command, s: string)
    ensures Execute(c, Some(s)) == ReplaceRange(s, c.at, c.at + ByteLen(Removed(c)), Inserted(c))
  {
    if c.Insert? {
      InsertStrIsReplaceRange(s, c.at, c.text);
    }
  }

  /** Every command's `undo` is the `replace_range` that swaps the two texts back. */
  lemma UndoIsSplice(c: Command, s: string)
    ensures Undo(c, Some(s)) == ReplaceRange(s, c.at, c.at + ByteLen(Inserted(c)), Removed(c))
  {
    if c.Delete? {
      InsertStrIsReplaceRange(s, c.at, c.text);
    }
  }

  /** Executed where its removed text sits, right after `a`, a command puts its inserted text there instead. */
  lemma ExecuteAt(c: Command, a: string, b: string)
    requires c.at == ByteLen(a)
    ensures Execute(c, Some(a + Removed(c) + b)) == Some(a + Inserted(c) + b)
  {
    ExecuteIsSplice(c, a + Removed(c) + b);
    ReplaceAt(a, Removed(c), b, Inserted(c));
  }

  /** Undone where its inserted text sits, right after `a`, a command puts its removed text back. */
  lemma UndoAt(c: Command, a: string, b: string)
    requires c.at == ByteLen(a)
    ensures Undo(c, Some(a + Inserted(c) + b)) == Some(a + Removed(c) + b)
  {
    UndoIsSplice(c, a + Inserted(c) + b);
    ReplaceAt(a, Inserted(c), b, Removed(c));
  }

  /** The command fits `s`: its offset is a char boundary and the text it removes is really there. */
  predicate Matches(c: Command, s: string)
  {
    match CharIndex(s, c.at)
    case None => false
    case Some(k) => k + |Removed(c)| <= |s| && s[k..k + |Removed(c)|] == Removed(c)
  }

  /** A command placed right after `a` fits any state where its removed text follows `a`. */
  lemma MatchesAt(c: Command, a: string, b: string)
    requires c.at == ByteLen(a)
    ensures Matches(c, a + Removed(c) + b)
  {
    var s := a + Removed(c) + b;
    BoundaryBefore(a, Removed(c), b);
    assert s[|a|..|a| + |Removed(c)|] == Removed(c);
  }

  /** Executing a command that fits the state and then undoing it restores the state exactly. */
  lemma UndoAfterExecute(c: Command, s: string)
    requires Matches(c, s)
    ensures Execute(c, Some(s)).Some?
    ensures Undo(c, Execute(c, Some(s))) == Some(s)
  {
    var a, rest := SplitAt(s, c.at);
    var b := rest[|Removed(c)|..];
    assert rest == Removed(c) + b;
    assert s == a + Removed(c) + b;
    ExecuteAt(c, a, b);
    UndoAt(c, a, b);
  }

  /** Undo followed by redo leaves the executed state as it was. */
  lemma RedoAfterUndo(c: Command, s: string)
    requires Matches(c, s)
    ensures Execute(c, Undo(c, Execute(c, Some(s)))) == Execute(c, Some(s))
  {
    UndoAfterExecute(c, s);
  }

  /** Time between two timestamps; `Instant::duration_since` saturates at zero. */
  function ElapsedMs(earlier: nat, later: nat): nat
  {
    if later >= earlier then later - earlier else 0
  }

  /** `c.is_whitespace() || c.is_ascii_punctuation()`: where merging stops, as at word boundaries. */
  predicate IsDelimiter(c: char)
  {
    IsWhitespace(c) || IsAsciiPunctuation(c)
  }

  /**
   * The merge rule of `try_merge`, with `Span(_, inBytes)` the measure that positions
   * the second command relative to the first: a single non-delimiter char
   * typed right after the text (Insert), or deleted right before it
   * (backspace) or at the same place (delete key), within 300 ms. The
   * result is the rewritten first command.
   */
  function MergeBy(first: Command, next: Command, inBytes: bool): Option<Command>
  {
    match (first, next)
    case (Insert(at1, text1, ts1), Insert(at2, text2, ts2)) =>
      if |text2| == 1 && !IsDelimiter(text2[0]) && at2 == at1 + Span(text1, inBytes)
        && ElapsedMs(ts1, ts2) < MaxMergeDelayMs
      then Some(Insert(at1, text1 + text2, ts2))
      else None
    case (Delete(at1, text1, ts1), Delete(at2, text2, ts2)) =>
      if |text2| == 1 && !IsDelimiter(text2[0]) && ElapsedMs(ts1, ts2) < MaxMergeDelayMs then
        if at2 + Span(text2, inBytes) == at1 then Some(Delete(at2, text2 + text1, ts2))
        else if at1 == at2 then Some(Delete(at1, text1 + text2, ts2))
        else None
      else None
    case _ => None
  }

  /** The length a merge compares offsets against: bytes, or chars as `chars().count()` gives them. */
  function Span(s: string, inBytes: bool): nat
  {
    if inBytes then ByteLen(s) else |s|
  }

  /** `try_merge` as written: the insert position is compared with `text1.chars().count()`, a char count, although offsets are bytes. */
  function TryMergeAsWritten(first: Command, next: Command): Option<Command>
  {
    MergeBy(first, next, false)
  }

  /** `try_merge` with byte offsets compared against byte lengths throughout. */
  function TryMerge(first: Command, next: Command): Option<Command>
  {
    MergeBy(first, next, true)
  }

  /**
   * When two commands merge, and into what: the second must be a single
   * non-delimiter char less than 300 ms after the first, and either both
   * are inserts with the char typed right after the first text, or both
   * are deletes with the char deleted right before the deleted span
   * (backspace) or at its offset (delete key). A typed char joins the text
   * at its end; a backspaced char joins at the front and the merged delete
   * starts at its offset; a char removed by the delete key joins at the
   * end. The merged command carries the second timestamp.
   */
  lemma MergeShape(first: Command, next: Command)
    ensures TryMerge(first, next).Some? <==>
      ((first.Insert? && next.Insert?) || (first.Delete? && next.Delete?))
      && |next.text| == 1 && !IsDelimiter(next.text[0])
      && ElapsedMs(first.timestamp, next.timestamp) < MaxMergeDelayMs
      && (first.Insert? ==> next.at == first.at + ByteLen(first.text))
      && (first.Delete? ==> next.at + ByteLen(next.text) == first.at || next.at == first.at)
    ensures first.Insert? && TryMerge(first, next).Some? ==>
      TryMerge(first, next).value == Insert(first.at, first.text + next.text, next.timestamp)
    ensures first.Delete? && TryMerge(first, next).Some? && next.at + ByteLen(next.text) == first.at ==>
      TryMerge(first, next).value == Delete(next.at, next.text + first.text, next.timestamp)
    ensures first.Delete? && TryMerge(first, next).Some? && next.at == first.at ==>
      TryMerge(first, next).value == Delete(first.at, first.text + next.text, next.timestamp)
  {
  }

  /**
   * With byte offsets compared against byte lengths, a merged command does
   * the same as running the two commands one after the other, on every
   * state on which the first command runs.
   */
  lemma MergedEqualsSequence(first: Command, next: Command, s: string)
    requires TryMerge(first, next).Some?
    requires Execute(first, Some(s)).Some?
    ensures Execute(TryMerge(first, next).value, Some(s)) == Execute(next, Execute(first, Some(s)))
  {
    ExecuteIsSplice(first, s);
    var a, m, b := ReplaceRangeSplits(s, first.at, first.at + ByteLen(Removed(first)), Inserted(first));
    if first.Insert? {
      assert s == a + (m + b);
      MergeInserts(first, next, a, m + b);
    } else {
      MergeDeletes(first, next, a, m, b);
    }
  }

  /** Typing right after an inserted text does what inserting the longer text does. */
  lemma MergeInserts(first: Command, next: Command, a: string, b: string)
    requires first.Insert? && TryMerge(first, next).Some? && first.at == ByteLen(a)
    ensures Execute(TryMerge(first, next).value, Some(a + b)) == Execute(next, Execute(first, Some(a + b)))
  {
    var merged := TryMerge(first, next).value;
    var t1, t2 := first.text, next.text;
    assert merged == Insert(first.at, t1 + t2, next.timestamp);
    assert a + [] + b == a + b;
    ExecuteAt(first, a, b);
    ExecuteAt(merged, a, b);
    ByteLenAppend(a, t1);
    var at1 := a + t1;
    assert at1 + [] + b == a + t1 + b;
    ExecuteAt(next, at1, b);
    assert at1 + t2 + b == a + (t1 + t2) + b;
  }

  /** Deleting next to a deleted span `m` of `a + m + b` does what deleting the joined span does. */
  lemma MergeDeletes(first: Command, next: Command, a: string, m: string, b: string)
    requires first.Delete? && TryMerge(first, next).Some?
    requires first.at == ByteLen(a) && ByteLen(a) + ByteLen(m) == first.at + ByteLen(first.text)
    ensures Execute(TryMerge(first, next).value, Some(a + m + b)) == Execute(next, Execute(first, Some(a + m + b)))
  {
    ExecuteIsSplice(first, a + m + b);
    RemoveAt(a, m, b);
    if next.at + ByteLen(next.text) == first.at {
      MergeBackspace(first, next, a, m, b);
    } else {
      MergeDeleteKey(first, next, a, m, b);
    }
  }

  lemma MergeBackspace(first: Command, next: Command, a: string, m: string, b: string)
    requires first.Delete? && next.Delete? && next.at + ByteLen(next.text) == first.at
    requires first.at == ByteLen(a) && ByteLen(m) == ByteLen(first.text)
    ensures Execute(Delete(next.at, next.text + first.text, next.timestamp), Some(a + m + b))
      == Execute(next, Some(a + b))
  {
    var merged := Delete(next.at, next.text + first.text, next.timestamp);
    ExecuteIsSplice(next, a + b);
    ExecuteIsSplice(merged, a + m + b);
    ByteLenAppend(next.text, first.text);
    assert next.at + ByteLen(Removed(merged)) == next.at + ByteLen(next.text) + ByteLen(m);
    DeleteBackward(a, m, b, next.at, next.text);
  }

  lemma MergeDeleteKey(first: Command, next: Command, a: string, m: string, b: string)
    requires first.Delete? && next.Delete? && next.at == first.at
    requires first.at == ByteLen(a) && ByteLen(m) == ByteLen(first.text)
    ensures Execute(Delete(first.at, first.text + next.text, next.timestamp), Some(a + m + b))
      == Execute(next, Some(a + b))
  {
    var merged := Delete(first.at, first.text + next.text, next.timestamp);
    ExecuteIsSplice(next, a + b);
    ExecuteIsSplice(merged, a + m + b);
    ByteLenAppend(first.text, next.text);
    assert first.at + ByteLen(Removed(merged)) == ByteLen(a) + ByteLen(m) + ByteLen(next.text);
    DeleteForward(a, m, b, next.text);
  }

  /** A backspace right before a deleted span `m` and the deletion of `m` together remove one contiguous range. */
  lemma DeleteBackward(a: string, m: string, b: string, at2: nat, text2: string)
    requires at2 + ByteLen(text2) == ByteLen(a)
    ensures ReplaceRange(a + b, at2, ByteLen(a), [])
      == ReplaceRange(a + m + b, at2, at2 + ByteLen(text2) + ByteLen(m), [])
  {
    var s1, s2 := a + b, a + m + b;
    var mb := m + b;
    assert s2 == a + mb;
    CharIndexAppendLeft(a, b, at2);
    CharIndexAppendLeft(a, mb, at2);
    CharIndexAtJoin(a, b);
    BoundaryAfter(a, m, b);
    var r := CharIndex(a, at2);
    if r.Some? {
      var k := r.value;
      CharIndexSound(a, at2);
      ReplaceRangeResolved(s1, at2, ByteLen(a), [], k, |a|);
      ReplaceRangeResolved(s2, at2, ByteLen(a) + ByteLen(m), [], k, |a| + |m|);
      assert s1[..k] == a[..k] == s2[..k];
      assert s1[|a|..] == b == s2[|a| + |m|..];
    }
  }

  /** A delete-key press where a span `m` was deleted removes the bytes that followed `m`. */
  lemma DeleteForward(a: string, m: string, b: string, text2: string)
    ensures ReplaceRange(a + b, ByteLen(a), ByteLen(a) + ByteLen(text2), [])
      == ReplaceRange(a + m + b, ByteLen(a), ByteLen(a) + ByteLen(m) + ByteLen(text2), [])
  {
    var y := ByteLen(text2);
    CharIndexAfter(a, b, y);
    CharIndexAfterBoth(a, m, b, y);
    var r := CharIndex(b, y);
    if r.Some? {
      DeleteForwardAt(a, m, b, y, r.value);
    } else {
      ReplaceRangeUnresolved(a + b, ByteLen(a), ByteLen(a) + y, []);
      ReplaceRangeUnresolved(a + m + b, ByteLen(a), ByteLen(a) + ByteLen(m) + y, []);
    }
  }

  lemma DeleteForwardAt(a: string, m: string, b: string, y: nat, q: nat)
    requires CharIndex(b, y) == Some(q)
    ensures ReplaceRange(a + b, ByteLen(a), ByteLen(a) + y, []) == Some(a + b[q..])
    ensures ReplaceRange(a + m + b, ByteLen(a), ByteLen(a) + ByteLen(m) + y, []) == Some(a + b[q..])
  {
    var s1, s2 := a + b, a + m + b;
    CharIndexAfter(a, b, y);
    CharIndexAfterBoth(a, m, b, y);
    CharIndexAtJoin(a, b);
    BoundaryBefore(a, m, b);
    ReplaceRangeResolved(s1, ByteLen(a), ByteLen(a) + y, [], |a|, |a| + q);
    ReplaceRangeResolved(s2, ByteLen(a), ByteLen(a) + ByteLen(m) + y, [], |a|, |a| + |m| + q);
    assert s1[..|a|] == a == s2[..|a|];
    assert s1[|a| + q..] == b[q..] == s2[|a| + |m| + q..];
    assert s1[..|a|] + [] + s1[|a| + q..] == a + b[q..];
    assert s2[..|a|] + [] + s2[|a| + |m| + q..] == a + b[q..];
  }

  /**
   * As written, `try_merge` can merge an insert that does not follow the
   * text: after pasting "éab" (4 bytes, 3 chars) at 0, typing "x" at byte 3
   * (between "a" and "b") merges into inserting "éabx" at 0, so a redo of
   * the merged command produces "éabx" where the edits produced "éaxb".
   */
  lemma AsWrittenMergeBreaksRedo()
    ensures var first := Insert(0, "éab", 0);
      var next := Insert(3, "x", 10);
      TryMergeAsWritten(first, next) == Some(Insert(0, "éabx", 10))
      && Execute(next, Execute(first, Some(""))) == Some("éaxb")
      && Execute(TryMergeAsWritten(first, next).value, Some("")) == Some("éabx")
  {
    var first, next, merged := Insert(0, "éab", 0), Insert(3, "x", 10), Insert(0, "éabx", 10);
    var e: string := [];
    assert "éab" + "x" == "éabx";
    assert TryMergeAsWritten(first, next) == Some(merged);
    assert e + [] + e == e && e + "éab" + e == "éab" && e + "éabx" + e == "éabx";
    ExecuteAt(first, e, e);
    ExecuteAt(merged, e, e);
    var before: string := "éa";
    assert before[1..] == "a" && before[1..][1..] == [];
    assert ByteLen(before) == 3;
    assert before + [] + "b" == "éab" && before + "x" + "b" == "éaxb";
    ExecuteAt(next, before, "b");
  }

  /** The corrected rule does not merge that pair. */
  lemma CorrectedMergeRefusesSplitInsert()
    ensures TryMerge(Insert(0, "éab", 0), Insert(3, "x", 10)) == None
  {
    var pasted: string := "éab";
    assert pasted[1..] == "ab" && pasted[1..][1..] == "b" && pasted[1..][1..][1..] == "";
    assert ByteLen(pasted) == 4;
  }

  /** Common-prefix length of two char sequences. */
  function CommonPrefix(a: string, b: string): (p: nat)
    ensures p <= |a| && p <= |b| && a[..p] == b[..p]
    ensures p == |a| || p == |b| || a[p] != b[p]
  {
    if |a| == 0 || |b| == 0 || a[0] != b[0] then 0
    else
      var p := CommonPrefix(a[1..], b[1..]);
      assert a[..p + 1] == [a[0]] + a[1..][..p];
      assert b[..p + 1] == [b[0]] + b[1..][..p];
      p + 1
  }

  /** The final `match` of `diff_to_command`: which command, if any, turns `deleted` into `inserted` at byte offset `at`. */
  function EditCommand(at: nat, deleted: string, inserted: string, now: nat): Option<Command>
  {
    if |deleted| == 0 && |inserted| > 0 then Some(Insert(at, inserted, now))
    else if |deleted| > 0 && |inserted| == 0 then Some(Delete(at, deleted, now))
    else if |deleted| > 0 && |inserted| > 0 then Some(Replace(at, deleted, inserted, now))
    else None
  }

  /** Placed after `prefix`, the chosen command fits the old text and produces the new one. */
  lemma EditCommandFits(prefix: string, deleted: string, inserted: string, suffix: string, now: nat)
    requires |deleted| > 0 || |inserted| > 0
    ensures var r := EditCommand(ByteLen(prefix), deleted, inserted, now);
      r.Some? && r.value.at == ByteLen(prefix) && r.value.timestamp == now
      && Removed(r.value) == deleted && Inserted(r.value) == inserted
      && Execute(r.value, Some(prefix + deleted + suffix)) == Some(prefix + inserted + suffix)
      && Matches(r.value, prefix + deleted + suffix)
  {
    var c := EditCommand(ByteLen(prefix), deleted, inserted, now).value;
    if |deleted| == 0 {
      assert deleted == [];
    }
    assert Removed(c) == deleted && Inserted(c) == inserted;
    ExecuteAt(c, prefix, suffix);
    MatchesAt(c, prefix, suffix);
  }

  /**
   * `diff_to_command`: None when the strings are equal, otherwise the one
   * edit that turns `oldS` into `newS`, found by stripping the common prefix
   * and then the common suffix (over chars); its offset is the byte length
   * of the common prefix. `now` stands for `Instant::now()`.
   */
  method DiffToCommand(oldS: string, newS: string, now: nat) returns (r: Option<Command>)
    ensures r.None? <==> oldS == newS
    ensures r.Some? ==> Execute(r.value, Some(oldS)) == Some(newS)
    ensures r.Some? ==> r.value.at == ByteLen(oldS[..CommonPrefix(oldS, newS)]) && r.value.timestamp == now
    ensures r.Some? ==> Matches(r.value, oldS)
  {
    if oldS == newS {
      return None;
    }
    var prefixLen := 0;
    while prefixLen < |oldS| && prefixLen < |newS| && oldS[prefixLen] == newS[prefixLen]
      invariant prefixLen <= |oldS| && prefixLen <= |newS|
      invariant oldS[..prefixLen] == newS[..prefixLen]
    {
      prefixLen := prefixLen + 1;
    }
    PrefixIsCommon(oldS, newS, prefixLen);
    var suffixLen := 0;
    var maxSuffix := (if |oldS| < |newS| then |oldS| else |newS|) - prefixLen;
    while suffixLen < maxSuffix && oldS[|oldS| - 1 - suffixLen] == newS[|newS| - 1 - suffixLen]
      invariant suffixLen <= maxSuffix
      invariant oldS[|oldS| - suffixLen..] == newS[|newS| - suffixLen..]
    {
      assert oldS[|oldS| - (suffixLen + 1)..] == [oldS[|oldS| - 1 - suffixLen]] + oldS[|oldS| - suffixLen..];
      assert newS[|newS| - (suffixLen + 1)..] == [newS[|newS| - 1 - suffixLen]] + newS[|newS| - suffixLen..];
      suffixLen := suffixLen + 1;
    }
    var deleted := oldS[prefixLen..|oldS| - suffixLen];
    var inserted := newS[prefixLen..|newS| - suffixLen];
    Parts(oldS, newS, prefixLen, suffixLen);
    r := EditCommand(ByteLen(oldS[..prefixLen]), deleted, inserted, now);
    EditCommandFits(oldS[..prefixLen], deleted, inserted, oldS[|oldS| - suffixLen..], now);
  }

  /** Cutting both strings at the shared prefix and suffix leaves the differing middles; they cannot both be empty. */
  lemma Parts(a: string, b: string, p: nat, q: nat)
    requires p + q <= |a| && p + q <= |b| && a != b
    requires a[..p] == b[..p] && a[|a| - q..] == b[|b| - q..]
    ensures a == a[..p] + a[p..|a| - q] + a[|a| - q..]
    ensures b == a[..p] + b[p..|b| - q] + a[|a| - q..]
    ensures |a[p..|a| - q]| > 0 || |b[p..|b| - q]| > 0
  {
    assert a == a[..p] + a[p..|a| - q] + a[|a| - q..];
    assert b == b[..p] + b[p..|b| - q] + b[|b| - q..];
  }

  /** The prefix loop stops exactly at the common prefix. */
  lemma PrefixIsCommon(a: string, b: string, p: nat)
    requires p <= |a| && p <= |b| && a[..p] == b[..p]
    requires p == |a| || p == |b| || a[p] != b[p]
    ensures p == CommonPrefix(a, b)
  {
  }
}
