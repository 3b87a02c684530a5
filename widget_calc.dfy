/**
 * The layout helpers of `src/ui/widget_calc.rs`: the line-number gutter's
 * width, the height of a wrapped line, the pen position of a column in a
 * glyph-wrapped line, and the viewport test. Pixel values are exact reals.
 */
module WidgetCalc {
  import opened Strings

  /** `n.to_string().len()`: how many decimal digits `n` has. */
  function Digits(n: nat): nat
  {
    |NatToString(n)|
  }

  /** `calculate_gutter_width`: the widest line number, one spare char and the padding. */
  function GutterWidth(lineCount: nat, charWidth: real, padding: real): real
  {
    Digits(lineCount) as real * charWidth + charWidth + padding
  }

  /** The gutter is `d + 1` chars wide exactly for the line counts with `d` digits. */
  lemma GutterWidthByDecade(lineCount: nat, d: nat, charWidth: real, padding: real)
    requires d >= 1
    requires if d == 1 then lineCount < 10 else Pow10(d - 1) <= lineCount < Pow10(d)
    ensures GutterWidth(lineCount, charWidth, padding) == (d + 1) as real * charWidth + padding
  {
    NatToStringLength(lineCount, d);
  }

  /** More lines never need fewer digits. */
  lemma {:induction false} DigitsMonotone(n: nat, m: nat)
    requires n <= m
    ensures Digits(n) <= Digits(m)
  {
    if n >= 10 {
      DigitsMonotone(n / 10, m / 10);
    }
  }

  /** So the gutter never narrows as lines are added (for a non-negative char width). */
  lemma GutterWidthMonotone(n: nat, m: nat, charWidth: real, padding: real)
    requires n <= m && charWidth >= 0.0
    ensures GutterWidth(n, charWidth, padding) <= GutterWidth(m, charWidth, padding)
  {
    DigitsMonotone(n, m);
    assert Digits(n) as real * charWidth <= Digits(m) as real * charWidth;
  }

  /** The worked values for an 8-pixel char and 5 pixels of padding: one step per decade. */
  lemma GutterWidthExamples()
    ensures GutterWidth(5, 8.0, 5.0) == 21.0 && GutterWidth(9, 8.0, 5.0) == 21.0
    ensures GutterWidth(10, 8.0, 5.0) == 29.0 && GutterWidth(99, 8.0, 5.0) == 29.0
    ensures GutterWidth(100, 8.0, 5.0) == 37.0 && GutterWidth(999, 8.0, 5.0) == 37.0
    ensures GutterWidth(1000, 8.0, 5.0) == 45.0
  {
    GutterWidthByDecade(5, 1, 8.0, 5.0);
    GutterWidthByDecade(9, 1, 8.0, 5.0);
    assert Pow10(1) == 10 && Pow10(2) == 100 && Pow10(3) == 1000 && Pow10(4) == 10000;
    GutterWidthByDecade(10, 2, 8.0, 5.0);
    GutterWidthByDecade(99, 2, 8.0, 5.0);
    GutterWidthByDecade(100, 3, 8.0, 5.0);
    GutterWidthByDecade(999, 3, 8.0, 5.0);
    GutterWidthByDecade(1000, 4, 8.0, 5.0);
  }

  /** `f32::ceil`. */
  function Ceil(x: real): (c: int)
    ensures c as real - 1.0 < x <= c as real
  {
    -((-x).Floor)
  }

  /**
   * How many rows the wrapped-line estimate gives: `ceil(len * char_width / content_width)`,
   * at least one; a width ratio that is not positive, as a negative content
   * width gives, yields one row.
   */
  function EstimatedRows(byteLen: nat, contentWidth: real, charWidth: real): (rows: nat)
    requires contentWidth != 0.0
    ensures rows >= 1
    ensures byteLen as real * charWidth / contentWidth <= 0.0 ==> rows == 1
    ensures byteLen as real * charWidth / contentWidth <= rows as real
    ensures rows == 1 || (rows - 1) as real < byteLen as real * charWidth / contentWidth
  {
    var est := Ceil(byteLen as real * charWidth / contentWidth);
    if est < 1 then 1 else est
  }

  /**
   * `calculate_line_height`. The length compared with `max_chars` and used in
   * the estimate is the text's byte length (`str::len`).
   */
  function LineHeight(text: string, contentWidth: real, charWidth: real, singleLineHeight: real, maxChars: nat): (h: real)
    requires contentWidth != 0.0
    ensures ByteLen(text) <= maxChars ==> h == singleLineHeight
  {
    if ByteLen(text) <= maxChars then singleLineHeight
    else EstimatedRows(ByteLen(text), contentWidth, charWidth) as real * singleLineHeight
  }

  /**
   * A line that does not fit gets a whole number of rows: at least one, and
   * the fewest that hold its width, measured in content widths.
   */
  lemma LineHeightRows(text: string, contentWidth: real, charWidth: real, singleLineHeight: real, maxChars: nat)
    requires contentWidth != 0.0 && ByteLen(text) > maxChars
    ensures var rows := EstimatedRows(ByteLen(text), contentWidth, charWidth);
      var q := ByteLen(text) as real * charWidth / contentWidth;
      LineHeight(text, contentWidth, charWidth, singleLineHeight, maxChars) == rows as real * singleLineHeight
      && rows >= 1 && q <= rows as real && (rows == 1 || (rows - 1) as real < q)
  {
    EstimatedRowsBounds(ByteLen(text), contentWidth, charWidth);
  }

  lemma EstimatedRowsBounds(n: nat, contentWidth: real, charWidth: real)
    requires contentWidth != 0.0
    ensures var rows := EstimatedRows(n, contentWidth, charWidth);
      var q := n as real * charWidth / contentWidth;
      rows >= 1 && q <= rows as real && (rows == 1 || (rows - 1) as real < q)
  {
  }

  /** Every line is at least one row high. */
  lemma LineHeightAtLeastOneRow(text: string, contentWidth: real, charWidth: real, singleLineHeight: real, maxChars: nat)
    requires contentWidth != 0.0 && singleLineHeight >= 0.0
    ensures LineHeight(text, contentWidth, charWidth, singleLineHeight, maxChars) >= singleLineHeight
  {
    if ByteLen(text) > maxChars {
      var rows := EstimatedRows(ByteLen(text), contentWidth, charWidth);
      assert rows as real * singleLineHeight >= 1.0 * singleLineHeight;
    }
  }

  /** The worked values: a short line in an 800-pixel row is one row high; any 150 ASCII chars at 100 per row take two. */
  lemma LineHeightExamples(long: string)
    requires |long| == 150 && IsAscii(long)
    ensures LineHeight("Hello, world!", 800.0, 8.0, 20.0, 100) == 20.0
    ensures LineHeight(long, 800.0, 8.0, 20.0, 100) == 40.0
  {
    ByteLenAscii("Hello, world!");
    ByteLenAscii(long);
    assert 150 as real * 8.0 / 800.0 == 1.5;
    assert Ceil(1.5) == 2;
  }

  /** The slack `simulate_word_wrap_position` allows before wrapping. */
  const WrapEpsilon: real := 0.01

  /** `k` steps of `d` pixels, added up one at a time. */
  function Steps(k: nat, d: real): real
  {
    if k == 0 then 0.0 else Steps(k - 1, d) + d
  }

  /** Adding up `k` steps of `d` is multiplying by `k`. */
  lemma {:induction false} StepsIsProduct(k: nat, d: real)
    ensures Steps(k, d) == k as real * d
  {
    if k > 0 {
      StepsIsProduct(k - 1, d);
      AdvanceOne(k - 1, d);
    }
  }

  /** With positive steps, more steps go further. */
  lemma {:induction false} StepsMonotone(i: nat, j: nat, d: real)
    requires i <= j && d > 0.0
    ensures Steps(i, d) <= Steps(j, d)
    ensures i < j ==> Steps(i, d) + d <= Steps(j, d)
  {
    if i < j {
      StepsMonotone(i, j - 1, d);
    }
  }

  /** Positive steps reach any distance eventually. */
  lemma StepsReach(d: real, target: real) returns (n: nat)
    requires d > 0.0
    ensures Steps(n, d) >= target
  {
    if target <= 0.0 {
      n := 0;
    } else {
      var q := target / d;
      assert q * d == target;
      n := Ceil(q);
      StepsIsProduct(n, d);
      assert n as real * d >= q * d;
    }
  }

  /** With the pen `j` glyphs into a row, the next glyph would cross the content width. */
  predicate Wraps(j: nat, charWidth: real, contentWidth: real)
  {
    Steps(j, charWidth) + charWidth > contentWidth + WrapEpsilon
  }

  /**
   * The pen after `n` glyphs: how many glyphs into its row it is, and how
   * many rows it has moved down. Each glyph advances the pen by one; when
   * the next glyph would cross the content width, the pen returns to the
   * start of a new row.
   */
  function WrapAfter(n: nat, charWidth: real, contentWidth: real): (nat, nat)
  {
    if n == 0 then (0, 0)
    else
      var (g, rows) := WrapAfter(n - 1, charWidth, contentWidth);
      if Wraps(g + 1, charWidth, contentWidth) then (0, rows + 1) else (g + 1, rows)
  }

  /** The pen as the walk moves it, in pixels: the (x, y) offset after `n` glyphs. */
  function PenAfter(n: nat, charWidth: real, contentWidth: real, singleLineHeight: real): (real, real)
  {
    if n == 0 then (0.0, 0.0)
    else
      var (x, y) := PenAfter(n - 1, charWidth, contentWidth, singleLineHeight);
      if x + charWidth + charWidth > contentWidth + WrapEpsilon then (0.0, y + singleLineHeight)
      else (x + charWidth, y)
  }

  /** The pixel walk is the glyph walk scaled: x is glyphs times the char width, y rows times the line height. */
  lemma {:induction false} PenAfterSteps(n: nat, charWidth: real, contentWidth: real, singleLineHeight: real)
    ensures PenAfter(n, charWidth, contentWidth, singleLineHeight)
      == (Steps(WrapAfter(n, charWidth, contentWidth).0, charWidth),
          Steps(WrapAfter(n, charWidth, contentWidth).1, singleLineHeight))
  {
    if n > 0 {
      PenAfterSteps(n - 1, charWidth, contentWidth, singleLineHeight);
      var g := WrapAfter(n - 1, charWidth, contentWidth).0;
      assert Steps(g + 1, charWidth) == Steps(g, charWidth) + charWidth;
    }
  }

  /** `simulate_word_wrap_position`: the walk over the first `column` chars of the line, as an (x, y) offset. */
  method SimulateWordWrapPosition(text: string, column: nat, charWidth: real, contentWidth: real, singleLineHeight: real)
      returns (x: real, y: real)
    ensures column == 0 ==> x == 0.0 && y == 0.0
    ensures var (g, rows) := WrapAfter(if column < |text| then column else |text|, charWidth, contentWidth);
      x == Steps(g, charWidth) && y == Steps(rows, singleLineHeight)
  {
    if column == 0 {
      return 0.0, 0.0;
    }
    x, y := 0.0, 0.0;
    var n := if column < |text| then column else |text|;
    var i := 0;
    while i < n
      invariant 0 <= i <= n
      invariant (x, y) == PenAfter(i, charWidth, contentWidth, singleLineHeight)
    {
      x := x + charWidth;
      if x + charWidth > contentWidth + WrapEpsilon {
        x := 0.0;
        y := y + singleLineHeight;
      }
      i := i + 1;
    }
    PenAfterSteps(n, charWidth, contentWidth, singleLineHeight);
  }

  lemma AdvanceOne(k: nat, d: real)
    ensures k as real * d + d == (k + 1) as real * d
  {
  }

  /** How many glyphs a row holds before the walk wraps. */
  function RowGlyphs(charWidth: real, contentWidth: real): (p: nat)
    requires charWidth > 0.0
    ensures p >= 1
  {
    var f := ((contentWidth + WrapEpsilon) / charWidth).Floor;
    if f < 1 then 1 else f
  }

  /** A row wraps after its `j`-th glyph exactly when `j` reaches `RowGlyphs`. */
  lemma WrapsAt(j: nat, charWidth: real, contentWidth: real)
    requires charWidth > 0.0 && j >= 1
    ensures Wraps(j, charWidth, contentWidth) <==> j >= RowGlyphs(charWidth, contentWidth)
  {
    StepsIsProduct(j, charWidth);
    var w := contentWidth + WrapEpsilon;
    var q := w / charWidth;
    assert q * charWidth == w;
    var p := RowGlyphs(charWidth, contentWidth);
    if j >= p {
      assert (j + 1) as real > q;
      assert (j + 1) as real * charWidth > q * charWidth;
    } else {
      assert (j + 1) as real <= q;
      assert (j + 1) as real * charWidth <= q * charWidth;
    }
    AdvanceOne(j, charWidth);
  }

  /** The walk in closed form: `n` glyphs leave the pen `n % p` glyphs into row `n / p`, with `p` glyphs per row. */
  lemma {:induction false} WrapAfterClosedForm(n: nat, charWidth: real, contentWidth: real)
    requires charWidth > 0.0
    ensures var p := RowGlyphs(charWidth, contentWidth);
      WrapAfter(n, charWidth, contentWidth) == (n % p, n / p)
  {
    if n > 0 {
      var p := RowGlyphs(charWidth, contentWidth);
      WrapAfterClosedForm(n - 1, charWidth, contentWidth);
      WrapsAt((n - 1) % p + 1, charWidth, contentWidth);
      NextGlyph(n, p);
    }
  }

  /** Where glyph `n` lands, from where glyph `n - 1` landed, in a row of `p` glyphs. */
  lemma NextGlyph(n: nat, p: nat)
    requires n > 0 && p >= 1
    ensures (n - 1) % p + 1 == p ==> n % p == 0 && n / p == (n - 1) / p + 1
    ensures (n - 1) % p + 1 < p ==> n % p == (n - 1) % p + 1 && n / p == (n - 1) / p
  {
    var q, r := (n - 1) / p, (n - 1) % p;
    if r + 1 == p {
      DivModUnique(n, p, q + 1, 0);
    } else {
      DivModUnique(n, p, q, r + 1);
    }
  }

  /** Division with remainder has one answer. */
  lemma DivModUnique(n: nat, p: nat, a: int, b: int)
    requires p >= 1 && 0 <= b < p && n == a * p + b
    ensures n / p == a && n % p == b
  {
    var d := a - n / p;
    assert d * p == n % p - b;
  }

  /** Column 6 of "Hello world" with 8-pixel chars is 6 glyphs into the first row, x = 48, both in an 800-pixel row and in an 80-pixel row, which holds ten glyphs before it wraps. */
  lemma WrapColumnSix()
    ensures WrapAfter(6, 8.0, 800.0) == (6, 0) && Steps(6, 8.0) == 48.0
    ensures WrapAfter(6, 8.0, 80.0) == (6, 0)
  {
    WrapAfterClosedForm(6, 8.0, 800.0);
    assert RowGlyphs(8.0, 800.0) == 100;
    StepsIsProduct(6, 8.0);
    assert (80.0 + WrapEpsilon) / 8.0 == 10.00125;
    assert RowGlyphs(8.0, 80.0) == 10;
    WrapAfterClosedForm(6, 8.0, 80.0);
  }

  /** Column 10 in an 80-pixel row with 8-pixel chars is at the start of the second row. */
  lemma WrapColumnTen()
    ensures WrapAfter(10, 8.0, 80.0) == (0, 1)
  {
    assert (80.0 + WrapEpsilon) / 8.0 == 10.00125;
    assert RowGlyphs(8.0, 80.0) == 10;
    WrapAfterClosedForm(10, 8.0, 80.0);
  }

  /** `is_line_in_viewport`. */
  function IsLineInViewport(lineY: real, lineHeight: real, viewportStart: real, viewportEnd: real): bool
  {
    lineY + lineHeight > viewportStart && lineY < viewportEnd
  }

  predicate Inside(p: real, lo: real, hi: real)
  {
    lo < p < hi
  }

  /**
   * For a row of positive height and a non-empty viewport, the test holds
   * exactly when some point lies strictly inside both: a row that only
   * touches an edge of the viewport is not visible.
   */
  lemma ViewportIsOverlap(lineY: real, lineHeight: real, viewportStart: real, viewportEnd: real)
    requires lineHeight > 0.0 && viewportStart < viewportEnd
    ensures IsLineInViewport(lineY, lineHeight, viewportStart, viewportEnd)
      <==> exists p :: Inside(p, lineY, lineY + lineHeight) && Inside(p, viewportStart, viewportEnd)
  {
    if IsLineInViewport(lineY, lineHeight, viewportStart, viewportEnd) {
      var lo := if lineY < viewportStart then viewportStart else lineY;
      var hi := if lineY + lineHeight < viewportEnd then lineY + lineHeight else viewportEnd;
      var p := (lo + hi) / 2.0;
      assert Inside(p, lineY, lineY + lineHeight) && Inside(p, viewportStart, viewportEnd);
    }
  }

  /** The worked cases of a 50..200 viewport with 20-pixel rows. */
  lemma ViewportExamples()
    ensures IsLineInViewport(100.0, 20.0, 50.0, 200.0)
    ensures IsLineInViewport(40.0, 20.0, 50.0, 200.0)
    ensures IsLineInViewport(190.0, 20.0, 50.0, 200.0)
    ensures !IsLineInViewport(10.0, 20.0, 50.0, 200.0)
    ensures !IsLineInViewport(250.0, 20.0, 50.0, 200.0)
    ensures !IsLineInViewport(30.0, 20.0, 50.0, 200.0) && !IsLineInViewport(200.0, 20.0, 50.0, 200.0)
  {
  }
}
