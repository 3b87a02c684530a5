// What the request editor (src/ui/request.rs) derives from the request's
// text: the content type a body format sets, the label the Body tab shows
// for a content type, how the body is formatted, and whether the URL
// enables the Send button.

module RequestContent {
  import opened Wrappers
  import opened Strings
  import opened Types
  import Http

  // ---- Body format and the Body tab label ----

  /** The `Content-Type` chosen with a body format; no format keeps the current one. */
  function ContentTypeFor(format: BodyFormat, current: string): string
  {
    match format
    case Json => "application/" + "json"
    case Xml => "application/" + "xml"
    case Text => "text/" + "plain"
    case GraphQL => "application/" + "graphql"
    case NoFormat => current
  }

  /** `body_label_from_content_type`: the first of JSON, XML (also HTML), GraphQL and Text the lower-cased type names. */
  function BodyLabel(contentType: string): Option<string>
  {
    LabelOfLower(ToLower(contentType))
  }

  /** The label for a content type already in lower case. */
  function LabelOfLower(ct: string): Option<string>
  {
    if Contains(ct, "json") then Some("JSON")
    else if Contains(ct, "xml") || Contains(ct, "html") then Some("XML")
    else if Contains(ct, "graphql") then Some("GraphQL")
    else if StartsWith(ct, "text/") || Contains(ct, "plain") then Some("Text")
    else None
  }

  /** The label naming a body format in the Body tab. */
  function FormatLabel(format: BodyFormat): Option<string>
  {
    match format
    case Json => Some("JSON")
    case Xml => Some("XML")
    case Text => Some("Text")
    case GraphQL => Some("GraphQL")
    case NoFormat => None
  }

  /** The label does not depend on the case of the content type. */
  lemma BodyLabelIgnoresCase(contentType: string)
    ensures BodyLabel(ToLower(contentType)) == BodyLabel(contentType)
  {
    Http.ToLowerIdempotent(contentType);
  }

  /** Lowering a string without ASCII capitals leaves it as it is. */
  lemma LowerWithoutCapitals(s: string)
    requires forall i :: 0 <= i < |s| ==> !('A' <= s[i] <= 'Z')
    ensures ToLower(s) == s
  {
  }

  /** A string that lacks one of the chars of `sub` does not contain `sub`. */
  lemma MissingCharNotContained(s: string, sub: string, k: nat)
    requires k < |sub| && sub[k] !in s
    ensures !Contains(s, sub)
  {
    forall i | 0 <= i <= |s|
      ensures !OccursAt(s, sub, i)
    {
      if i + |sub| <= |s| {
        assert s[i..i + |sub|][k] == s[i + k];
      }
    }
  }

  /** `sub` occurs in `p + sub` right after `p`. */
  lemma OccursAfterPrefix(p: string, sub: string)
    ensures OccursAt(p + sub, sub, |p|) && Contains(p + sub, sub) && StartsWith(p + sub, p)
  {
    assert (p + sub)[|p|..|p| + |sub|] == sub;
    assert (p + sub)[..|p|] == p;
    assert 0 <= |p| <= |p + sub| && OccursAt(p + sub, sub, |p|);
  }

  /** The label of a content type already in lower case is read off it directly. */
  lemma LabelOfLowered(ct: string)
    requires ToLower(ct) == ct
    ensures BodyLabel(ct) == LabelOfLower(ct)
  {
  }

  lemma JsonContentType()
    ensures ToLower("application/" + "json") == "application/" + "json"
  {
    LowerWithoutCapitals("application/" + "json");
  }

  lemma JsonMatches()
    ensures StartsWith("application/" + "json", "application/") && Contains("application/" + "json", "json")
  {
    OccursAfterPrefix("application/", "json");
  }

  lemma XmlContentType()
    ensures ToLower("application/" + "xml") == "application/" + "xml"
  {
    LowerWithoutCapitals("application/" + "xml");
  }

  lemma XmlMatches()
    ensures StartsWith("application/" + "xml", "application/") && Contains("application/" + "xml", "xml")
  {
    OccursAfterPrefix("application/", "xml");
  }

  lemma XmlLacksJson()
    ensures !Contains("application/" + "xml", "json")
  {
    MissingCharNotContained("application/" + "xml", "json", 0);
  }

  lemma GraphQLContentType()
    ensures ToLower("application/" + "graphql") == "application/" + "graphql"
  {
    LowerWithoutCapitals("application/" + "graphql");
  }

  lemma GraphQLMatches()
    ensures StartsWith("application/" + "graphql", "application/") && Contains("application/" + "graphql", "graphql")
  {
    OccursAfterPrefix("application/", "graphql");
  }

  lemma GraphQLLacksJson()
    ensures !Contains("application/" + "graphql", "json")
  {
    MissingCharNotContained("application/" + "graphql", "json", 0);
  }

  lemma GraphQLLacksXml()
    ensures !Contains("application/" + "graphql", "xml")
  {
    MissingCharNotContained("application/" + "graphql", "xml", 0);
  }

  lemma GraphQLLacksHtml()
    ensures !Contains("application/" + "graphql", "html")
  {
    MissingCharNotContained("application/" + "graphql", "html", 2);
  }

  lemma TextContentType()
    ensures ToLower("text/" + "plain") == "text/" + "plain"
  {
    LowerWithoutCapitals("text/" + "plain");
  }

  lemma TextMatches()
    ensures StartsWith("text/" + "plain", "text/") && Contains("text/" + "plain", "plain")
  {
    OccursAfterPrefix("text/", "plain");
  }

  lemma TextLacksJson()
    ensures !Contains("text/" + "plain", "json")
  {
    MissingCharNotContained("text/" + "plain", "json", 0);
  }

  lemma TextLacksXml()
    ensures !Contains("text/" + "plain", "xml")
  {
    MissingCharNotContained("text/" + "plain", "xml", 1);
  }

  lemma TextLacksHtml()
    ensures !Contains("text/" + "plain", "html")
  {
    MissingCharNotContained("text/" + "plain", "html", 0);
  }

  lemma TextLacksGraphql()
    ensures !Contains("text/" + "plain", "graphql")
  {
    MissingCharNotContained("text/" + "plain", "graphql", 0);
  }

  /** The label each chosen format's content type reads back as. */
  lemma FormatLabels()
    ensures BodyLabel("application/" + "json") == Some("JSON")
    ensures BodyLabel("application/" + "xml") == Some("XML")
    ensures BodyLabel("application/" + "graphql") == Some("GraphQL")
    ensures BodyLabel("text/" + "plain") == Some("Text")
  {
    JsonContentType();
    LabelOfLowered("application/" + "json");
    JsonMatches();
    XmlContentType();
    LabelOfLowered("application/" + "xml");
    XmlMatches();
    XmlLacksJson();
    GraphQLContentType();
    LabelOfLowered("application/" + "graphql");
    GraphQLMatches();
    GraphQLLacksJson();
    GraphQLLacksXml();
    GraphQLLacksHtml();
    TextContentType();
    LabelOfLowered("text/" + "plain");
    TextMatches();
    TextLacksJson();
    TextLacksXml();
    TextLacksHtml();
    TextLacksGraphql();
  }

  /**
   * Choosing a body format and then reading the label back names that
   * format.
   */
  lemma FormatLabelRoundTrip(format: BodyFormat, current: string)
    requires format != NoFormat
    ensures BodyLabel(ContentTypeFor(format, current)) == FormatLabel(format)
  {
    FormatLabels();
  }

  // ---- Formatting the body ----

  /**
   * What `FormatRequestBody` produces for a body in `format`: JSON gives
   * `prettyJson`, the body pretty-printed by the JSON library (`None` when
   * the body does not parse), XML and text are trimmed, GraphQL and no
   * format are not formatted.
   */
  function FormattedBody(body: string, format: BodyFormat, prettyJson: Option<string>): (r: Option<string>)
    ensures format == Json ==> r == prettyJson
    ensures (format == Xml || format == Text) ==> (r.Some?
      && (|r.value| == 0 || (!IsWhitespace(r.value[0]) && !IsWhitespace(r.value[|r.value| - 1]))))
    ensures (format == GraphQL || format == NoFormat) ==> r.None?
  {
    match format
    case Json => prettyJson
    case Xml => Some(Trim(body))
    case Text => Some(Trim(body))
    case GraphQL => None
    case NoFormat => None
  }

  /** Formatting an XML or text body a second time changes nothing more. */
  lemma FormatBodyIdempotent(body: string, format: BodyFormat, prettyJson: Option<string>)
    requires format == Xml || format == Text
    ensures FormattedBody(FormattedBody(body, format, prettyJson).value, format, prettyJson) == FormattedBody(body, format, prettyJson)
  {
    TrimIdempotent(body);
  }

  // ---- The Send button ----

  /** `url_valid` in `view`: a non-blank URL that has an http or https scheme or holds a `{{` variable. */
  predicate UrlValid(url: string)
  {
    |Trim(url)| > 0 && (StartsWith(url, "http://") || StartsWith(url, "https://") || Contains(url, "{{"))
  }

  /**
   * Every URL the request sender accepts enables the Send button; without
   * a `{{` variable, the button is enabled exactly for those URLs.
   */
  lemma UrlValidAgreesWithSend(url: string)
    ensures Http.CheckUrl(url).Accepted? ==> UrlValid(url)
    ensures !Contains(url, "{{") ==> (UrlValid(url) <==> Http.CheckUrl(url).Accepted?)
  {
  }
}
