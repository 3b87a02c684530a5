// What the response viewer (src/ui/response.rs) derives from a response's
// content type: the language its body is highlighted as and how the
// Format button rewrites the body.

module ResponseContent {
  import opened Wrappers
  import opened Strings
  import opened Types
  import RequestContent
  import Http

  // ---- Highlighting language ----

  /** `get_syntax_from_content_type`: the language is chosen from the lowered content type. */
  function SyntaxFor(contentType: string): string
  {
    SyntaxOfLower(ToLower(contentType))
  }

  /** The chain of `contains` tests, first hit wins, JSON when nothing matches. */
  function SyntaxOfLower(s: string): string
  {
    if Contains(s, "json") then "json"
    else if Contains(s, "xml") || Contains(s, "html") then "xml"
    else if Contains(s, "javascript") || Contains(s, "js") then "javascript"
    else if Contains(s, "css") then "css"
    else if Contains(s, "yaml") || Contains(s, "yml") then "yaml"
    else if Contains(s, "sql") then "sql"
    else if Contains(s, "python") then "python"
    else if Contains(s, "rust") then "rust"
    else if Contains(s, "c++") || Contains(s, "cpp") then "cpp"
    else if Contains(s, "java") then "java"
    else if Contains(s, "markdown") || Contains(s, "md") then "markdown"
    else if Contains(s, "toml") then "toml"
    else if Contains(s, "ini") then "ini"
    else if Contains(s, "bash") || Contains(s, "shell") then "bash"
    else "json"
  }

  /**
   * The same choice written as a table read from the top: rule `k` maps
   * `Keyword(k)` to `Language(k)`, one rule per keyword.
   */
  const RuleCount: nat := 20

  function Keyword(k: nat): string
    requires k < RuleCount
  {
    match k
    case 0 => "json"
    case 1 => "xml"
    case 2 => "html"
    case 3 => "javascript"
    case 4 => "js"
    case 5 => "css"
    case 6 => "yaml"
    case 7 => "yml"
    case 8 => "sql"
    case 9 => "python"
    case 10 => "rust"
    case 11 => "c++"
    case 12 => "cpp"
    case 13 => "java"
    case 14 => "markdown"
    case 15 => "md"
    case 16 => "toml"
    case 17 => "ini"
    case 18 => "bash"
    case _ => "shell"
  }

  function Language(k: nat): string
    requires k < RuleCount
  {
    match k
    case 0 => "json"
    case 1 => "xml"
    case 2 => "xml"
    case 3 => "javascript"
    case 4 => "javascript"
    case 5 => "css"
    case 6 => "yaml"
    case 7 => "yaml"
    case 8 => "sql"
    case 9 => "python"
    case 10 => "rust"
    case 11 => "cpp"
    case 12 => "cpp"
    case 13 => "java"
    case 14 => "markdown"
    case 15 => "markdown"
    case 16 => "toml"
    case 17 => "ini"
    case 18 => "bash"
    case _ => "bash"
  }

  /** The language of the first rule from `i` on whose keyword `s` contains; JSON when none does. */
  function FirstRule(i: nat, s: string): string
    requires i <= RuleCount
    decreases RuleCount - i
  {
    if i == RuleCount then "json"
    else if Contains(s, Keyword(i)) then Language(i)
    else FirstRule(i + 1, s)
  }

  /** No rule in `[i, j)` matches `s`. */
  predicate NoRuleMatches(i: nat, j: nat, s: string)
    requires i <= j <= RuleCount
  {
    forall k | i <= k < j :: !Contains(s, Keyword(k))
  }

  /**
   * `choice` is what a top-down reading of the rules from `i` picks for
   * `s`: the language of the first matching rule, or JSON when none matches.
   */
  predicate IsFirstMatch(i: nat, s: string, choice: string)
    requires i <= RuleCount
  {
    (exists j | i <= j < RuleCount :: Contains(s, Keyword(j)) && choice == Language(j) && NoRuleMatches(i, j, s))
    || (choice == "json" && NoRuleMatches(i, RuleCount, s))
  }

  lemma FirstMatchSkip(i: nat, s: string, choice: string)
    requires i < RuleCount && !Contains(s, Keyword(i)) && IsFirstMatch(i + 1, s, choice)
    ensures IsFirstMatch(i, s, choice)
  {
    if j :| i + 1 <= j < RuleCount && Contains(s, Keyword(j)) && choice == Language(j) && NoRuleMatches(i + 1, j, s) {
      assert NoRuleMatches(i, j, s);
    } else {
      assert NoRuleMatches(i, RuleCount, s);
    }
  }

  /** `FirstRule` picks the first rule that matches, or the default when no rule does. */
  lemma {:induction false} FirstRuleIsFirstMatch(i: nat, s: string)
    requires i <= RuleCount
    ensures IsFirstMatch(i, s, FirstRule(i, s))
    decreases RuleCount - i
  {
    if i == RuleCount {
      assert NoRuleMatches(i, RuleCount, s);
    } else if Contains(s, Keyword(i)) {
      assert NoRuleMatches(i, i, s);
    } else {
      FirstRuleIsFirstMatch(i + 1, s);
      FirstMatchSkip(i, s, FirstRule(i, s));
    }
  }

  lemma RulesFrom0(s: string)
    ensures FirstRule(0, s) == if Contains(s, "json") then "json" else if Contains(s, "xml") then "xml" else if Contains(s, "html") then "xml" else if Contains(s, "javascript") then "javascript" else if Contains(s, "js") then "javascript" else FirstRule(5, s)
  {
    assert FirstRule(4, s) == if Contains(s, "js") then "javascript" else FirstRule(5, s);
    assert FirstRule(3, s) == if Contains(s, "javascript") then "javascript" else FirstRule(4, s);
    assert FirstRule(2, s) == if Contains(s, "html") then "xml" else FirstRule(3, s);
    assert FirstRule(1, s) == if Contains(s, "xml") then "xml" else FirstRule(2, s);
    assert FirstRule(0, s) == if Contains(s, "json") then "json" else FirstRule(1, s);
  }

  lemma RulesFrom5(s: string)
    ensures FirstRule(5, s) == if Contains(s, "css") then "css" else if Contains(s, "yaml") then "yaml" else if Contains(s, "yml") then "yaml" else if Contains(s, "sql") then "sql" else FirstRule(9, s)
  {
    assert FirstRule(8, s) == if Contains(s, "sql") then "sql" else FirstRule(9, s);
    assert FirstRule(7, s) == if Contains(s, "yml") then "yaml" else FirstRule(8, s);
    assert FirstRule(6, s) == if Contains(s, "yaml") then "yaml" else FirstRule(7, s);
    assert FirstRule(5, s) == if Contains(s, "css") then "css" else FirstRule(6, s);
  }

  lemma RulesFrom9(s: string)
    ensures FirstRule(9, s) == if Contains(s, "python") then "python" else if Contains(s, "rust") then "rust" else if Contains(s, "c++") then "cpp" else if Contains(s, "cpp") then "cpp" else FirstRule(13, s)
  {
    assert FirstRule(12, s) == if Contains(s, "cpp") then "cpp" else FirstRule(13, s);
    assert FirstRule(11, s) == if Contains(s, "c++") then "cpp" else FirstRule(12, s);
    assert FirstRule(10, s) == if Contains(s, "rust") then "rust" else FirstRule(11, s);
    assert FirstRule(9, s) == if Contains(s, "python") then "python" else FirstRule(10, s);
  }

  lemma RulesFrom13(s: string)
    ensures FirstRule(13, s) == if Contains(s, "java") then "java" else if Contains(s, "markdown") then "markdown" else if Contains(s, "md") then "markdown" else FirstRule(16, s)
  {
    assert FirstRule(15, s) == if Contains(s, "md") then "markdown" else FirstRule(16, s);
    assert FirstRule(14, s) == if Contains(s, "markdown") then "markdown" else FirstRule(15, s);
    assert FirstRule(13, s) == if Contains(s, "java") then "java" else FirstRule(14, s);
  }

  lemma RulesFrom16(s: string)
    ensures FirstRule(16, s) == if Contains(s, "toml") then "toml" else if Contains(s, "ini") then "ini" else if Contains(s, "bash") then "bash" else if Contains(s, "shell") then "bash" else "json"
  {
    assert FirstRule(19, s) == if Contains(s, "shell") then "bash" else FirstRule(20, s);
    assert FirstRule(18, s) == if Contains(s, "bash") then "bash" else FirstRule(19, s);
    assert FirstRule(17, s) == if Contains(s, "ini") then "ini" else FirstRule(18, s);
    assert FirstRule(16, s) == if Contains(s, "toml") then "toml" else FirstRule(17, s);
  }

  /** The `contains` chain and the rule table choose the same language. */
  lemma SyntaxByRules(s: string)
    ensures SyntaxOfLower(s) == FirstRule(0, s)
  {
    RulesFrom0(s);
    RulesFrom5(s);
    RulesFrom9(s);
    RulesFrom13(s);
    RulesFrom16(s);
  }

  /**
   * The highlighting language is the language of the first rule whose
   * keyword the lowered content type contains, and JSON when it contains
   * none of them.
   */
  lemma SyntaxIsFirstMatch(contentType: string)
    ensures IsFirstMatch(0, ToLower(contentType), SyntaxFor(contentType))
  {
    SyntaxByRules(ToLower(contentType));
    FirstRuleIsFirstMatch(0, ToLower(contentType));
  }

  /** The choice does not depend on the case of the content type. */
  lemma SyntaxIgnoresCase(contentType: string)
    ensures SyntaxFor(ToLower(contentType)) == SyntaxFor(contentType)
  {
    Http.ToLowerIdempotent(contentType);
  }

  /**
   * Precedence: anything mentioning JSON is JSON, and a JavaScript type
   * that mentions neither JSON nor a markup language is JavaScript, never Java.
   */
  lemma SyntaxPrecedence(contentType: string)
    ensures var s := ToLower(contentType);
      (Contains(s, "json") ==> SyntaxFor(contentType) == "json")
      && (Contains(s, "javascript") && !Contains(s, "json") && !Contains(s, "xml") && !Contains(s, "html")
          ==> SyntaxFor(contentType) == "javascript")
      && (SyntaxFor(contentType) == "java" ==> !Contains(s, "javascript") && Contains(s, "java"))
  {
  }

  // ---- The Format button ----

  /**
   * `FormatResponseBody`: nothing without a response; a content type
   * containing `json` (as written, without lowering) gives the body
   * pretty-printed by the JSON library, `prettyJson`, which is `None` when
   * the body does not parse; every other type gives the trimmed body.
   */
  function FormattedResponse(response: Option<ResponseData>, prettyJson: Option<string>): (r: Option<string>)
    ensures response.None? ==> r.None?
    ensures response.Some? && Contains(response.value.contentType, "json") ==> r == prettyJson
    ensures response.Some? && !Contains(response.value.contentType, "json") ==>
              (r.Some? && |r.value| <= |response.value.body|
               && (|r.value| == 0 || (!IsWhitespace(r.value[0]) && !IsWhitespace(r.value[|r.value| - 1]))))
  {
    match response
    case None => None
    case Some(resp) =>
      if Contains(resp.contentType, "json") then prettyJson
      else if Contains(resp.contentType, "xml") || Contains(resp.contentType, "html") then Some(Trim(resp.body))
      else Some(Trim(resp.body))
  }

  /**
   * The response is formatted as the request editor formats a body: as
   * JSON when the content type mentions JSON and as text otherwise.
   */
  lemma ResponseFormatAgreesWithRequest(resp: ResponseData, prettyJson: Option<string>)
    ensures Contains(resp.contentType, "json") ==>
              FormattedResponse(Some(resp), prettyJson) == RequestContent.FormattedBody(resp.body, Json, prettyJson)
    ensures !Contains(resp.contentType, "json") ==>
              FormattedResponse(Some(resp), prettyJson) == RequestContent.FormattedBody(resp.body, Text, prettyJson)
  {
  }

  /** Formatting a non-JSON response whose body is already formatted changes nothing. */
  lemma ResponseFormatIdempotent(resp: ResponseData, prettyJson: Option<string>)
    requires !Contains(resp.contentType, "json")
    ensures var once := FormattedResponse(Some(resp), prettyJson).value;
      FormattedResponse(Some(resp.(body := once)), prettyJson) == Some(once)
  {
    RequestContent.FormatBodyIdempotent(resp.body, Text, prettyJson);
  }
}
