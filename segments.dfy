// Splitting an input's text into plain runs and `{{variable}}` references
// for highlighting, as `parse_text_segments` does in
// src/ui/custom_text_input.rs and src/ui/url_input.rs with the pattern
// `\{\{[^}]+\}\}`. The pattern is matched here by a hand-written scanner;
// offsets in a segment are byte offsets, as in the source.

module Segments {
  import opened Wrappers
  import opened Strings

  datatype Kind = Normal | Variable

  /** A run of the text, its kind, and its byte offsets `[start, end)` in the text. */
  datatype Segment = Segment(text: string, kind: Kind, start: nat, end: nat)

  /** `t` is a whole `{{name}}`: two opening braces, a name of one or more chars other than '}', two closing braces. */
  predicate IsVariable(t: string)
  {
    |t| >= 5 && t[0] == '{' && t[1] == '{' && t[|t| - 2] == '}' && t[|t| - 1] == '}'
    && forall x :: 2 <= x < |t| - 2 ==> t[x] != '}'
  }

  /** The first index at or after `k` holding '}', or the length when there is none. */
  function CloseFrom(s: string, k: nat): (r: nat)
    requires k <= |s|
    ensures k <= r <= |s|
    ensures forall x :: k <= x < r ==> s[x] != '}'
    ensures r < |s| ==> s[r] == '}'
    decreases |s| - k
  {
    if k == |s| || s[k] == '}' then k else CloseFrom(s, k + 1)
  }

  /**
   * Where a match of the pattern starting at `i` ends, if one starts there:
   * after "{{" the name runs up to the first '}', which must be followed
   * by another '}'.
   */
  function VariableEnd(s: string, i: nat): (r: Option<nat>)
    requires i <= |s|
    ensures r.Some? ==> i + 5 <= r.value <= |s|
  {
    if i + 2 <= |s| && s[i] == '{' && s[i + 1] == '{' then
      var k := CloseFrom(s, i + 2);
      if k > i + 2 && k + 1 < |s| && s[k + 1] == '}' then Some(k + 2) else None
    else None
  }

  /** The scanner agrees with the pattern: a match runs from `i` to `e` exactly when `s[i..e]` is a whole `{{name}}`. */
  lemma VariableEndMatches(s: string, i: nat, e: nat)
    requires i <= e <= |s|
    ensures VariableEnd(s, i) == Some(e) <==> IsVariable(s[i..e])
  {
    if IsVariable(s[i..e]) {
      var k := CloseFrom(s, i + 2);
      assert s[e - 2] == s[i..e][e - 2 - i];
      forall x | i + 2 <= x < e - 2
        ensures s[x] != '}'
      {
        assert s[x] == s[i..e][x - i];
      }
      assert s[i] == s[i..e][0] && s[i + 1] == s[i..e][1] && s[e - 1] == s[i..e][e - 1 - i];
      assert k == e - 2;
    }
  }

  /** The start of the leftmost match at or after `p`, as `find_iter` finds it. */
  function NextVariable(s: string, p: nat): (r: Option<nat>)
    requires p <= |s|
    ensures r.Some? ==> p <= r.value <= |s| && VariableEnd(s, r.value).Some?
    ensures forall x :: p <= x <= |s| && (r.None? || x < r.value) ==> VariableEnd(s, x).None?
    decreases |s| - p
  {
    if VariableEnd(s, p).Some? then Some(p)
    else if p == |s| then None
    else NextVariable(s, p + 1)
  }

  /** The segment for the run `s[a..b]` of the given kind, with its byte offsets. */
  function Piece(s: string, a: nat, b: nat, kind: Kind): Segment
    requires a <= b <= |s|
  {
    Segment(s[a..b], kind, ByteLen(s[..a]), ByteLen(s[..b]))
  }

  /** The plain run before a match at `j`, when the scan position `p` is before it. */
  function Gap(s: string, p: nat, j: nat): seq<Segment>
    requires p <= j <= |s|
  {
    if j > p then [Piece(s, p, j, Normal)] else []
  }

  /** The segments of `s[p..]`: the plain run before each match, the match, and the plain rest after the last match. */
  function Scan(s: string, p: nat): seq<Segment>
    requires p <= |s|
    decreases |s| - p
  {
    match NextVariable(s, p)
    case Some(j) =>
      var e := VariableEnd(s, j).value;
      Gap(s, p, j) + ([Piece(s, j, e, Variable)] + Scan(s, e))
    case None =>
      Gap(s, p, |s|)
  }

  /**
   * The segments spell out `t` in order, each starting (in bytes) where
   * the previous one ended and the first at `at`.
   */
  predicate Tiles(segs: seq<Segment>, t: string, at: nat)
    decreases |segs|
  {
    if |segs| == 0 then |t| == 0
    else
      var g := segs[0];
      |g.text| <= |t| && g.text == t[..|g.text|] && g.start == at && g.end == at + ByteLen(g.text)
      && Tiles(segs[1..], t[|g.text|..], g.end)
  }

  /**
   * Read against the text `t` they tile, every Variable segment is a whole
   * `{{name}}` and no match of the pattern starts inside a Normal segment,
   * even one that would run on past it: the Variable segments are exactly
   * the leftmost matches.
   */
  predicate Leftmost(segs: seq<Segment>, t: string)
    decreases |segs|
  {
    |segs| == 0 ||
    (var g := segs[0];
     |g.text| <= |t|
     && (g.kind == Variable ==> IsVariable(g.text))
     && (g.kind == Normal ==> forall i, e :: 0 <= i < |g.text| && i <= e <= |t| ==> !IsVariable(t[i..e]))
     && Leftmost(segs[1..], t[|g.text|..]))
  }

  /** No segment is empty and no two Normal segments are adjacent. */
  predicate Separated(segs: seq<Segment>)
  {
    (forall k :: 0 <= k < |segs| ==> |segs[k].text| > 0)
    && (forall k :: 0 <= k < |segs| - 1 ==> segs[k].kind == Variable || segs[k + 1].kind == Variable)
  }

  lemma ByteLenSplit(s: string, p: nat, j: nat)
    requires p <= j <= |s|
    ensures ByteLen(s[..j]) == ByteLen(s[..p]) + ByteLen(s[p..j])
  {
    assert s[..j] == s[..p] + s[p..j];
    ByteLenAppend(s[..p], s[p..j]);
  }

  lemma TilesCons(g: Segment, rest: seq<Segment>, t: string, at: nat)
    requires |g.text| <= |t| && g.text == t[..|g.text|] && g.start == at && g.end == at + ByteLen(g.text)
    requires Tiles(rest, t[|g.text|..], g.end)
    ensures Tiles([g] + rest, t, at)
  {
    assert ([g] + rest)[1..] == rest;
  }

  lemma PieceTiles(s: string, a: nat, b: nat, kind: Kind, rest: seq<Segment>)
    requires a <= b <= |s|
    requires Tiles(rest, s[b..], ByteLen(s[..b]))
    ensures Tiles([Piece(s, a, b, kind)] + rest, s[a..], ByteLen(s[..a]))
  {
    ByteLenSplit(s, a, b);
    assert s[a..][..b - a] == s[a..b];
    assert s[a..][b - a..] == s[b..];
    TilesCons(Piece(s, a, b, kind), rest, s[a..], ByteLen(s[..a]));
  }

  lemma GapTiles(s: string, p: nat, j: nat, rest: seq<Segment>)
    requires p <= j <= |s|
    requires Tiles(rest, s[j..], ByteLen(s[..j]))
    ensures Tiles(Gap(s, p, j) + rest, s[p..], ByteLen(s[..p]))
  {
    if j > p {
      PieceTiles(s, p, j, Normal, rest);
    } else {
      assert Gap(s, p, j) + rest == rest;
    }
  }

  /** The segments of `s[p..]` spell it out, contiguously, at the right byte offsets. */
  lemma {:induction false} ScanTiles(s: string, p: nat)
    requires p <= |s|
    ensures Tiles(Scan(s, p), s[p..], ByteLen(s[..p]))
    decreases |s| - p
  {
    match NextVariable(s, p)
    case Some(j) =>
      var e := VariableEnd(s, j).value;
      ScanTiles(s, e);
      PieceTiles(s, j, e, Variable, Scan(s, e));
      GapTiles(s, p, j, [Piece(s, j, e, Variable)] + Scan(s, e));
    case None =>
      assert Tiles([], s[|s|..], ByteLen(s[..|s|]));
      GapTiles(s, p, |s|, []);
      assert Gap(s, p, |s|) + [] == Gap(s, p, |s|);
  }

  /** A match of the pattern inside `s[p..]` is a match inside `s`, shifted by `p`. */
  lemma VariableInSuffix(s: string, p: nat, i: nat, e: nat)
    requires p <= |s| && i <= e <= |s| - p
    requires IsVariable(s[p..][i..e])
    ensures VariableEnd(s, p + i) == Some(p + e)
  {
    assert s[p..][i..e] == s[p + i..p + e];
    VariableEndMatches(s, p + i, p + e);
  }

  lemma LeftmostCons(g: Segment, rest: seq<Segment>, t: string)
    requires |g.text| <= |t|
    requires g.kind == Variable ==> IsVariable(g.text)
    requires g.kind == Normal ==> forall i, e :: 0 <= i < |g.text| && i <= e <= |t| ==> !IsVariable(t[i..e])
    requires Leftmost(rest, t[|g.text|..])
    ensures Leftmost([g] + rest, t)
  {
    assert ([g] + rest)[1..] == rest;
  }

  lemma VariableLeftmost(s: string, j: nat, e: nat, rest: seq<Segment>)
    requires j <= e <= |s| && VariableEnd(s, j) == Some(e)
    requires Leftmost(rest, s[e..])
    ensures Leftmost([Piece(s, j, e, Variable)] + rest, s[j..])
  {
    VariableEndMatches(s, j, e);
    assert s[j..][e - j..] == s[e..];
    LeftmostCons(Piece(s, j, e, Variable), rest, s[j..]);
  }

  lemma GapLeftmost(s: string, p: nat, j: nat, rest: seq<Segment>)
    requires p <= j <= |s|
    requires forall x :: p <= x < j ==> VariableEnd(s, x).None?
    requires Leftmost(rest, s[j..])
    ensures Leftmost(Gap(s, p, j) + rest, s[p..])
  {
    if j > p {
      forall i, x | 0 <= i < j - p && i <= x <= |s[p..]|
        ensures !IsVariable(s[p..][i..x])
      {
        if IsVariable(s[p..][i..x]) {
          VariableInSuffix(s, p, i, x);
        }
      }
      assert s[p..][j - p..] == s[j..];
      LeftmostCons(Piece(s, p, j, Normal), rest, s[p..]);
    } else {
      assert Gap(s, p, j) + rest == rest;
    }
  }

  /** The Variable segments of `s[p..]` are exactly its leftmost matches. */
  lemma {:induction false} ScanLeftmost(s: string, p: nat)
    requires p <= |s|
    ensures Leftmost(Scan(s, p), s[p..])
    decreases |s| - p
  {
    match NextVariable(s, p)
    case Some(j) =>
      var e := VariableEnd(s, j).value;
      ScanLeftmost(s, e);
      VariableLeftmost(s, j, e, Scan(s, e));
      GapLeftmost(s, p, j, [Piece(s, j, e, Variable)] + Scan(s, e));
    case None =>
      GapLeftmost(s, p, |s|, []);
      assert Gap(s, p, |s|) + [] == Gap(s, p, |s|);
  }

  lemma SeparatedCons(g: Segment, rest: seq<Segment>)
    requires |g.text| > 0 && Separated(rest)
    requires g.kind == Variable || |rest| == 0 || rest[0].kind == Variable
    ensures Separated([g] + rest)
  {
    var all := [g] + rest;
    forall k | 0 <= k < |all| - 1
      ensures all[k].kind == Variable || all[k + 1].kind == Variable
    {
      if k > 0 {
        assert all[k] == rest[k - 1] && all[k + 1] == rest[k];
      }
    }
    forall k | 0 <= k < |all|
      ensures |all[k].text| > 0
    {
      if k > 0 {
        assert all[k] == rest[k - 1];
      }
    }
  }

  /** The segments of `s[p..]` are non-empty and plain runs never touch; there are none exactly when `s[p..]` is empty. */
  lemma {:induction false} ScanSeparated(s: string, p: nat)
    requires p <= |s|
    ensures Separated(Scan(s, p))
    ensures |Scan(s, p)| == 0 <==> p == |s|
    decreases |s| - p
  {
    match NextVariable(s, p)
    case Some(j) =>
      var e := VariableEnd(s, j).value;
      var tail := [Piece(s, j, e, Variable)] + Scan(s, e);
      ScanSeparated(s, e);
      SeparatedCons(Piece(s, j, e, Variable), Scan(s, e));
      if j > p {
        SeparatedCons(Piece(s, p, j, Normal), tail);
      } else {
        assert Gap(s, p, j) + tail == tail;
      }
    case None =>
      if p < |s| {
        SeparatedCons(Piece(s, p, |s|, Normal), []);
        assert [Piece(s, p, |s|, Normal)] + [] == [Piece(s, p, |s|, Normal)];
      }
  }

  /** One round of the scan: the plain run up to the next match, the match, then the rest. */
  lemma ScanStep(s: string, p: nat, j: nat, e: nat)
    requires p <= |s| && NextVariable(s, p) == Some(j) && VariableEnd(s, j) == Some(e)
    ensures Scan(s, p) == Gap(s, p, j) + ([Piece(s, j, e, Variable)] + Scan(s, e))
  {
  }

  /** The last round of the scan: with no match left, the rest is one plain run. */
  lemma ScanStop(s: string, p: nat)
    requires p <= |s| && NextVariable(s, p).None?
    ensures Scan(s, p) == Gap(s, p, |s|)
  {
  }

  lemma AppendAssoc(a: seq<Segment>, g: seq<Segment>, v: Segment, rest: seq<Segment>)
    ensures a + g + [v] + rest == a + (g + ([v] + rest))
  {
  }

  /**
   * The highlighting loop of `parse_text_segments`: for each match that
   * `find_iter` yields, push the plain run before it (if any) and the
   * match, then push the plain rest.
   */
  method ScanVariables(text: string) returns (segments: seq<Segment>)
    ensures segments == Scan(text, 0)
  {
    segments := [];
    var lastEnd := 0;
    var next := NextVariable(text, 0);
    while next.Some?
      invariant lastEnd <= |text|
      invariant next == NextVariable(text, lastEnd)
      invariant segments + Scan(text, lastEnd) == Scan(text, 0)
      decreases |text| - lastEnd
    {
      var start := next.value;
      var end := VariableEnd(text, start).value;
      ghost var before := segments;
      ScanStep(text, lastEnd, start, end);
      if start > lastEnd {
        segments := segments + [Piece(text, lastEnd, start, Normal)];
      } else {
        assert before + Gap(text, lastEnd, start) == before;
      }
      assert segments == before + Gap(text, lastEnd, start);
      segments := segments + [Piece(text, start, end, Variable)];
      AppendAssoc(before, Gap(text, lastEnd, start), Piece(text, start, end, Variable), Scan(text, end));
      lastEnd := end;
      next := NextVariable(text, lastEnd);
    }
    ScanStop(text, lastEnd);
    if lastEnd < |text| {
      segments := segments + [Piece(text, lastEnd, |text|, Normal)];
    } else {
      assert segments + [] == segments;
    }
  }

  /** Text with no match is a single plain run, or nothing at all when empty. */
  lemma ScanWithoutVariables(s: string)
    requires forall x :: 0 <= x <= |s| ==> VariableEnd(s, x).None?
    ensures Scan(s, 0) == if |s| == 0 then [] else [Segment(s, Normal, 0, ByteLen(s))]
  {
    assert NextVariable(s, 0).None?;
    assert s[0..|s|] == s && s[..0] == [] && s[..|s|] == s;
  }
}
