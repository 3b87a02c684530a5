/**
 * Text primitives shared by the model. Rust strings are UTF-8: `len()` counts
 * bytes, `chars()` counts Unicode scalar values. A string is modelled as its
 * sequence of chars, and byte offsets are related to char offsets through
 * the UTF-8 length of each char.
 */
module Strings {
  import opened Wrappers

  /** Number of bytes of the UTF-8 encoding of `c` (Rust `char::len_utf8`). */
  function Utf8Len(c: char): (n: nat)
    ensures 1 <= n <= 4
    ensures n == 1 <==> c as int < 0x80
  {
    if c as int < 0x80 then 1
    else if c as int < 0x800 then 2
    else if c as int < 0x10000 then 3
    else 4
  }

  /** Byte length of the UTF-8 encoding of `s` (Rust `str::len`). */
  function ByteLen(s: string): (n: nat)
    ensures |s| <= n <= 4 * |s|
  {
    SumUtf8Len(s)
  }

  /** The recursive sum behind `ByteLen`, one char at a time. */
  function SumUtf8Len(s: string): (n: nat)
    ensures |s| <= n <= 4 * |s|
  {
    if |s| == 0 then 0 else Utf8Len(s[0]) + SumUtf8Len(s[1..])
  }

  /** An ASCII string has as many bytes as chars. */
  predicate IsAscii(s: string)
  {
    forall i :: 0 <= i < |s| ==> s[i] as int < 0x80
  }

  lemma {:induction false} ByteLenAppend(a: string, b: string)
    ensures ByteLen(a + b) == ByteLen(a) + ByteLen(b)
  {
    if |a| > 0 {
      assert (a + b)[0] == a[0];
      assert (a + b)[1..] == a[1..] + b;
      ByteLenAppend(a[1..], b);
    } else {
      assert a + b == b;
    }
  }

  lemma {:induction false} ByteLenAscii(s: string)
    ensures ByteLen(s) == |s| <==> IsAscii(s)
  {
    if |s| > 0 {
      ByteLenAscii(s[1..]);
      if IsAscii(s) {
        assert IsAscii(s[1..]) by {
          forall i | 0 <= i < |s[1..]| ensures s[1..][i] as int < 0x80 { assert s[1..][i] == s[i + 1]; }
        }
      } else if ByteLen(s) == |s| {
        assert Utf8Len(s[0]) == 1 && ByteLen(s[1..]) == |s| - 1;
        forall i | 0 <= i < |s| ensures s[i] as int < 0x80 {
          if i > 0 { assert s[i] == s[1..][i - 1]; }
        }
        assert false;
      }
    }
  }

  function Shift(r: Option<nat>, d: nat): Option<nat>
  {
    match r
    case None => None
    case Some(k) => Some(k + d)
  }

  /**
   * The char index at which the byte offset `b` falls, when `b` is a char
   * boundary of `s`; None when `b` splits a char or lies beyond the end
   * (where Rust's `insert_str` and `replace_range` panic).
   */
  function CharIndex(s: string, b: nat): (r: Option<nat>)
    ensures r.Some? ==> r.value <= |s|
  {
    LocateBoundary(s, b)
  }

  /** The recursive walk behind `CharIndex`: skip the first char's bytes and look in the rest. */
  function LocateBoundary(s: string, b: nat): (r: Option<nat>)
    ensures r.Some? ==> r.value <= |s|
  {
    if b == 0 then Some(0)
    else if |s| == 0 || b < Utf8Len(s[0]) then None
    else Shift(LocateBoundary(s[1..], b - Utf8Len(s[0])), 1)
  }

  /** A char index found by `CharIndex` is one whose prefix has exactly `b` bytes. */
  lemma {:induction false} CharIndexSound(s: string, b: nat)
    ensures CharIndex(s, b).Some? ==> ByteLen(s[..CharIndex(s, b).value]) == b
  {
    if b != 0 && |s| > 0 && b >= Utf8Len(s[0]) {
      CharIndexSound(s[1..], b - Utf8Len(s[0]));
      var r := CharIndex(s[1..], b - Utf8Len(s[0]));
      if r.Some? {
        var k := r.value;
        assert s[..k + 1] == [s[0]] + s[1..][..k];
        ByteLenAppend([s[0]], s[1..][..k]);
      }
    }
  }

  /** Every char boundary is found by `CharIndex`: the byte length of the first `k` chars maps back to `k`. */
  lemma {:induction false} CharIndexOfPrefix(s: string, k: nat)
    requires k <= |s|
    ensures CharIndex(s, ByteLen(s[..k])) == Some(k)
  {
    if k > 0 {
      assert s[..k] == [s[0]] + s[1..][..k - 1];
      ByteLenAppend([s[0]], s[1..][..k - 1]);
      CharIndexOfPrefix(s[1..], k - 1);
    }
  }

  /** Byte offsets inside the first part of a concatenation are resolved in that part. */
  lemma {:induction false} CharIndexAppendLeft(a: string, b: string, x: nat)
    requires x <= ByteLen(a)
    ensures CharIndex(a + b, x) == CharIndex(a, x)
  {
    if x != 0 && |a| > 0 {
      assert (a + b)[0] == a[0];
      assert (a + b)[1..] == a[1..] + b;
      if x >= Utf8Len(a[0]) {
        CharIndexAppendLeft(a[1..], b, x - Utf8Len(a[0]));
      }
    }
  }

  /** The byte end of the first part of a concatenation is a char boundary, at char `|a|`. */
  lemma CharIndexAtJoin(a: string, b: string)
    ensures CharIndex(a + b, ByteLen(a)) == Some(|a|)
  {
    CharIndexAppendLeft(a, b, ByteLen(a));
    assert a[..|a|] == a;
    CharIndexOfPrefix(a, |a|);
  }

  /** Byte offsets past the first part of a concatenation are resolved in the second part. */
  lemma {:induction false} CharIndexAppendRight(a: string, b: string, x: nat)
    requires x >= ByteLen(a)
    ensures CharIndex(a + b, x) == Shift(CharIndex(b, x - ByteLen(a)), |a|)
  {
    if |a| == 0 {
      assert a + b == b;
    } else {
      var u := Utf8Len(a[0]);
      var ab := a + b;
      assert ab[0] == a[0] && ab[1..] == a[1..] + b;
      assert ByteLen(a) == u + ByteLen(a[1..]);
      CharIndexAppendRight(a[1..], b, x - u);
      assert CharIndex(ab, x) == Shift(CharIndex(ab[1..], x - u), 1);
    }
  }

  /** Rust `char::is_whitespace`: the Unicode White_Space property. */
  predicate IsWhitespace(c: char)
  {
    ('\U{0009}' <= c <= '\U{000D}') || c == ' ' || c == '\U{0085}' || c == '\U{00A0}' || c == '\U{1680}'
    || ('\U{2000}' <= c <= '\U{200A}') || c == '\U{2028}' || c == '\U{2029}' || c == '\U{202F}'
    || c == '\U{205F}' || c == '\U{3000}'
  }

  /** Rust `char::is_ascii_punctuation`. */
  predicate IsAsciiPunctuation(c: char)
  {
    ('!' <= c <= '/') || (':' <= c <= '@') || ('[' <= c <= '`') || ('{' <= c <= '~')
  }

  predicate IsAsciiDigit(c: char)
  {
    '0' <= c <= '9'
  }

  /** ASCII letters and digits; the Unicode categories of Rust `char::is_alphanumeric` are not modelled. */
  predicate IsAlphanumeric(c: char)
  {
    ('a' <= c <= 'z') || ('A' <= c <= 'Z') || IsAsciiDigit(c)
  }

  function LowerChar(c: char): char
  {
    if 'A' <= c <= 'Z' then (c as int + 32) as char else c
  }

  /** `to_lowercase` on ASCII letters; other chars are kept. */
  function ToLower(s: string): (r: string)
    ensures |r| == |s|
    ensures forall i :: 0 <= i < |s| ==> r[i] == LowerChar(s[i])
  {
    if |s| == 0 then [] else [LowerChar(s[0])] + ToLower(s[1..])
  }

  predicate StartsWith(s: string, prefix: string)
  {
    |prefix| <= |s| && s[..|prefix|] == prefix
  }

  predicate OccursAt(s: string, sub: string, i: nat)
  {
    i + |sub| <= |s| && s[i..i + |sub|] == sub
  }

  /** `str::contains` for a string pattern. */
  predicate Contains(s: string, sub: string)
  {
    exists i | 0 <= i <= |s| :: OccursAt(s, sub, i)
  }

  predicate ContainsChar(s: string, c: char)
  {
    exists i | 0 <= i < |s| :: s[i] == c
  }

  /** Where `trim` starts cutting nothing more: the first non-whitespace position at or after `i`. */
  function TrimStartIndex(s: string, i: nat): (k: nat)
    requires i <= |s|
    ensures i <= k <= |s|
    ensures forall x :: i <= x < k ==> IsWhitespace(s[x])
    ensures k == |s| || !IsWhitespace(s[k])
    decreases |s| - i
  {
    if i < |s| && IsWhitespace(s[i]) then TrimStartIndex(s, i + 1) else i
  }

  /** Where `trim` stops from the right: the end of the last non-whitespace char in `s[lo..j]`. */
  function TrimEndIndex(s: string, lo: nat, j: nat): (k: nat)
    requires lo <= j <= |s|
    ensures lo <= k <= j
    ensures forall x :: k <= x < j ==> IsWhitespace(s[x])
    ensures k == lo || !IsWhitespace(s[k - 1])
    decreases j - lo
  {
    if lo < j && IsWhitespace(s[j - 1]) then TrimEndIndex(s, lo, j - 1) else j
  }

  /** Rust `str::trim`: the slice left after cutting whitespace from both ends; all that is cut is whitespace and the slice neither starts nor ends with it. */
  function Trim(s: string): (r: string)
    ensures exists i, j :: (0 <= i <= j <= |s| && r == s[i..j]
      && (forall k :: 0 <= k < i ==> IsWhitespace(s[k]))
      && (forall k :: j <= k < |s| ==> IsWhitespace(s[k])))
    ensures |r| == 0 || (!IsWhitespace(r[0]) && !IsWhitespace(r[|r| - 1]))
  {
    var i := TrimStartIndex(s, 0);
    var j := TrimEndIndex(s, i, |s|);
    s[i..j]
  }

  /** Trimming a trimmed string changes nothing. */
  lemma TrimIdempotent(s: string)
    ensures Trim(Trim(s)) == Trim(s)
  {
    var r := Trim(s);
    assert TrimStartIndex(r, 0) == 0;
    assert TrimEndIndex(r, 0, |r|) == |r|;
    assert r[0..|r|] == r;
  }

  /** A string is blank after trimming exactly when all its chars are whitespace. */
  lemma TrimEmptyIffBlank(s: string)
    ensures |Trim(s)| == 0 <==> forall k :: 0 <= k < |s| ==> IsWhitespace(s[k])
  {
    var i := TrimStartIndex(s, 0);
    var j := TrimEndIndex(s, i, |s|);
    if |Trim(s)| == 0 {
      assert i == j;
    }
  }

  function DigitChar(d: nat): char
    requires d < 10
  {
    ('0' as int + d) as char
  }

  /** Decimal rendering of a natural number (`to_string` / `{}` formatting). */
  function NatToString(n: nat): (r: string)
    ensures 1 <= |r|
    ensures forall i :: 0 <= i < |r| ==> IsAsciiDigit(r[i])
    ensures r[0] == '0' ==> n == 0
  {
    if n < 10 then [DigitChar(n)] else NatToString(n / 10) + [DigitChar(n % 10)]
  }

  /** Value of a string of ASCII digits. */
  function DigitsValue(s: string): (v: nat)
    requires forall i :: 0 <= i < |s| ==> IsAsciiDigit(s[i])
  {
    if |s| == 0 then 0
    else
      assert IsAsciiDigit(s[|s| - 1]);
      10 * DigitsValue(s[..|s| - 1]) + (s[|s| - 1] as int - '0' as int)
  }

  lemma {:induction false} NatToStringValue(n: nat)
    ensures DigitsValue(NatToString(n)) == n
  {
    if n >= 10 {
      var r := NatToString(n / 10);
      assert (r + [DigitChar(n % 10)])[..|r|] == r;
      NatToStringValue(n / 10);
    }
  }

  /** Power of ten used to relate a number to its digit count. */
  function Pow10(k: nat): (p: nat)
    ensures p >= 1
  {
    if k == 0 then 1 else 10 * Pow10(k - 1)
  }

  /** The decimal rendering of `n` has `d` digits exactly when `10^(d-1) <= n < 10^d` (with 0 having one digit). */
  lemma {:induction false} NatToStringLength(n: nat, d: nat)
    requires d >= 1
    ensures |NatToString(n)| == d <==> (if d == 1 then n < 10 else Pow10(d - 1) <= n < Pow10(d))
  {
    if n >= 10 {
      if d > 1 {
        NatToStringLength(n / 10, d - 1);
      } else {
        NatToStringAtLeastTwo(n);
      }
    } else if d > 1 {
      PowMonotone(1, d - 1);
    }
  }

  lemma {:induction false} NatToStringAtLeastTwo(n: nat)
    requires n >= 10
    ensures |NatToString(n)| >= 2
  {
  }

  lemma {:induction false} PowMonotone(a: nat, b: nat)
    requires a <= b
    ensures Pow10(a) <= Pow10(b)
  {
    if a < b { PowMonotone(a, b - 1); }
  }

  /** `String::insert_str(at, t)`; None where Rust panics. */
  function InsertStr(s: string, at: nat, t: string): Option<string>
  {
    match CharIndex(s, at)
    case None => None
    case Some(k) => Some(s[..k] + t + s[k..])
  }

  /** `String::replace_range(from..to, t)`; None where Rust panics. */
  function ReplaceRange(s: string, from: nat, to: nat, t: string): Option<string>
  {
    var k, j := CharIndex(s, from), CharIndex(s, to);
    if k.Some? && j.Some? && k.value <= j.value then Some(s[..k.value] + t + s[j.value..]) else None
  }

  /** A byte offset `y` into `b` is the offset `ByteLen(a) + y` into `a + b`. */
  lemma CharIndexAfter(a: string, b: string, y: nat)
    ensures CharIndex(a + b, ByteLen(a) + y) == Shift(CharIndex(b, y), |a|)
  {
    CharIndexAppendRight(a, b, ByteLen(a) + y);
  }

  /** The same across two leading parts: an offset `y` into `b` is `ByteLen(a) + ByteLen(m) + y` into `a + m + b`. */
  lemma CharIndexAfterBoth(a: string, m: string, b: string, y: nat)
    ensures CharIndex(a + m + b, ByteLen(a) + ByteLen(m) + y) == Shift(CharIndex(b, y), |a| + |m|)
  {
    ByteLenAppend(a, m);
    CharIndexAfter(a + m, b, y);
  }

  /** `replace_range` once both ends are known char boundaries. */
  lemma ReplaceRangeResolved(s: string, from: nat, to: nat, t: string, k: nat, j: nat)
    requires CharIndex(s, from) == Some(k) && CharIndex(s, to) == Some(j) && k <= j
    ensures ReplaceRange(s, from, to, t) == Some(s[..k] + t + s[j..])
  {
  }

  /** `replace_range` panics when its end is not a char boundary. */
  lemma ReplaceRangeUnresolved(s: string, from: nat, to: nat, t: string)
    requires CharIndex(s, to).None?
    ensures ReplaceRange(s, from, to, t).None?
  {
  }

  /** A `replace_range` that does not panic cuts the string into the part before, the replaced part and the part after. */
  lemma ReplaceRangeSplits(s: string, from: nat, to: nat, t: string) returns (a: string, m: string, b: string)
    requires ReplaceRange(s, from, to, t).Some?
    ensures s == a + m + b && ByteLen(a) == from && ByteLen(a) + ByteLen(m) == to
    ensures ReplaceRange(s, from, to, t) == Some(a + t + b)
  {
    var k, j := CharIndex(s, from).value, CharIndex(s, to).value;
    CharIndexSound(s, from);
    CharIndexSound(s, to);
    a, m, b := s[..k], s[k..j], s[j..];
    assert s[..j] == a + m;
    ByteLenAppend(a, m);
    assert s == a + m + b;
  }

  /** `insert_str(at, t)` is `replace_range(at..at, t)`: both panic exactly when `at` is not a char boundary. */
  lemma InsertStrIsReplaceRange(s: string, at: nat, t: string)
    ensures InsertStr(s, at, t) == ReplaceRange(s, at, at, t)
  {
  }

  /** In `a + t + b`, the byte end of `a` is a char boundary at char `|a|`. */
  lemma BoundaryBefore(a: string, t: string, b: string)
    ensures CharIndex(a + t + b, ByteLen(a)) == Some(|a|)
  {
    var tb := t + b;
    assert a + t + b == a + tb;
    CharIndexAtJoin(a, tb);
  }

  /** In `a + t + b`, the byte end of `t` is a char boundary at char `|a| + |t|`. */
  lemma BoundaryAfter(a: string, t: string, b: string)
    ensures CharIndex(a + t + b, ByteLen(a) + ByteLen(t)) == Some(|a| + |t|)
  {
    var at := a + t;
    assert a + t + b == at + b;
    ByteLenAppend(a, t);
    CharIndexAtJoin(at, b);
  }

  /** Replacing the bytes of `t` in `a + t + b` by `u` gives `a + u + b`. */
  lemma ReplaceAt(a: string, t: string, b: string, u: string)
    ensures ReplaceRange(a + t + b, ByteLen(a), ByteLen(a) + ByteLen(t), u) == Some(a + u + b)
  {
    BoundaryBefore(a, t, b);
    BoundaryAfter(a, t, b);
    var s := a + t + b;
    assert s[..|a|] == a && s[|a| + |t|..] == b;
  }

  /** Removing the bytes of `t` from `a + t + b` gives `a + b`. */
  lemma RemoveAt(a: string, t: string, b: string)
    ensures ReplaceRange(a + t + b, ByteLen(a), ByteLen(a) + ByteLen(t), []) == Some(a + b)
  {
    BoundaryBefore(a, t, b);
    BoundaryAfter(a, t, b);
    var s := a + t + b;
    assert s[..|a|] == a && s[|a| + |t|..] == b;
    assert s[..|a|] + [] + s[|a| + |t|..] == a + b;
  }

  /** Inserting `t` at the byte end of `a` in `a + b` gives `a + t + b`. */
  lemma InsertAt(a: string, b: string, t: string)
    ensures InsertStr(a + b, ByteLen(a), t) == Some(a + t + b)
  {
    CharIndexAtJoin(a, b);
    assert (a + b)[..|a|] == a && (a + b)[|a|..] == b;
  }

  /** A state on which a command runs splits around the command's offset. */
  lemma SplitAt(s: string, at: nat) returns (a: string, b: string)
    requires CharIndex(s, at).Some?
    ensures s == a + b && ByteLen(a) == at && |a| == CharIndex(s, at).value
  {
    CharIndexSound(s, at);
    var k := CharIndex(s, at).value;
    a, b := s[..k], s[k..];
  }

}
