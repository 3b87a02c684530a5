// `UrlInput` (src/ui/url_input.rs): the request URL field. Of its state
// only the value, the highlighting switch and the history fields matter
// here; the history is declared and initialised but no method shown ever
// records into it. Its segments are the same `{{variable}}` scan as
// `CustomTextInput`'s, without the empty-segment fallback.

module UrlInput {
  import opened Strings
  import opened Segments

  /** A snapshot as the URL input declares it; the timestamp is milliseconds since the epoch. */
  datatype HistoryEntry = HistoryEntry(value: string, cursorPosition: nat, selection: (nat, nat), timestamp: nat)

  /**
   * What the URL input's `parse_text_segments` returns: one plain segment
   * over the whole text when highlighting is off, the scan of the text
   * otherwise (nothing at all for an empty text).
   */
  function UrlSegments(text: string, enabled: bool): seq<Segment>
  {
    if !enabled then [Segment(text, Normal, 0, ByteLen(text))] else Scan(text, 0)
  }

  /**
   * The segments spell out the text in order at their byte offsets. With
   * highlighting on, the Variable segments are exactly the leftmost
   * `{{name}}` matches, no segment is empty and no two plain ones touch; an
   * empty text gives no segment and a text without any match one plain
   * segment.
   */
  lemma UrlSegmentsProperties(text: string, enabled: bool)
    ensures Tiles(UrlSegments(text, enabled), text, 0)
    ensures !enabled ==> |UrlSegments(text, enabled)| == 1 && UrlSegments(text, enabled)[0].kind == Normal
    ensures enabled ==> Leftmost(UrlSegments(text, enabled), text) && Separated(UrlSegments(text, enabled))
    ensures enabled ==> (|UrlSegments(text, enabled)| == 0 <==> |text| == 0)
    ensures enabled && (forall x :: 0 <= x <= |text| ==> VariableEnd(text, x).None?) && |text| > 0 ==>
      UrlSegments(text, enabled) == [Segment(text, Normal, 0, ByteLen(text))]
  {
    assert text[0..] == text && text[..0] == [];
    if enabled {
      ScanTiles(text, 0);
      ScanLeftmost(text, 0);
      ScanSeparated(text, 0);
      if forall x :: 0 <= x <= |text| ==> VariableEnd(text, x).None? {
        ScanWithoutVariables(text);
      }
    } else {
      var g := UrlSegments(text, enabled)[0];
      assert text[..|g.text|] == text && text[|g.text|..] == [];
      assert Tiles(UrlSegments(text, enabled)[1..], text[|g.text|..], g.end);
    }
  }

  class Input {
    var value: string
    var highlighting: bool
    var maxHistory: nat
    var groupingThresholdMs: nat
    var history: seq<HistoryEntry>
    var historyIndex: nat

    /** `UrlInput::new`: the given value, highlighting on, a cap of 50 and a threshold of 1000 ms, an empty history. */
    constructor (value: string)
      ensures this.value == value && highlighting
      ensures maxHistory == 50 && groupingThresholdMs == 1000 && history == [] && historyIndex == 0
    {
      this.value := value;
      highlighting := true;
      maxHistory := 50;
      groupingThresholdMs := 1000;
      history := [];
      historyIndex := 0;
    }

    /** `UrlInput::default`: empty, highlighting on, a cap of 100 and a threshold of 500 ms, an empty history. */
    constructor Default()
      ensures value == [] && highlighting
      ensures maxHistory == 100 && groupingThresholdMs == 500 && history == [] && historyIndex == 0
    {
      value := [];
      highlighting := true;
      maxHistory := 100;
      groupingThresholdMs := 500;
      history := [];
      historyIndex := 0;
    }

    /** `set_value` (and the `value` builder): replaces the value and nothing else, the history included. */
    method SetValue(v: string)
      modifies this`value
      ensures value == v
    {
      value := v;
    }

    /** The `max_history` builder: sets the cap and nothing else. */
    method SetMaxHistory(max: nat)
      modifies this`maxHistory
      ensures maxHistory == max
    {
      maxHistory := max;
    }

    /** The `syntax_highlighting` builder, reduced to the switch this model keeps. */
    method SetHighlighting(enabled: bool)
      modifies this`highlighting
      ensures highlighting == enabled
    {
      highlighting := enabled;
    }

    /** `parse_text_segments`: the loop over the matches, with the properties `UrlSegmentsProperties` proves. */
    method ParseTextSegments() returns (segments: seq<Segment>)
      ensures segments == UrlSegments(value, highlighting)
      ensures Tiles(segments, value, 0)
      ensures highlighting ==> Leftmost(segments, value) && Separated(segments) && (|segments| == 0 <==> |value| == 0)
    {
      UrlSegmentsProperties(value, highlighting);
      if !highlighting {
        return [Segment(value, Normal, 0, ByteLen(value))];
      }
      segments := ScanVariables(value);
    }
  }
}
