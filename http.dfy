// The request helpers of src/http.rs that do not touch the network: the
// content-type test that decides whether a response body is kept as bytes,
// the URL checks `send_request` makes before building a request, and the
// curl command line shown for a request. `urlencoding::encode` is a
// function parameter.

module Http {
  import opened Wrappers
  import opened Strings
  import opened Types

  /** The content types treated as text: the `text/` family, four application types, and anything naming a charset. */
  predicate IsTextContentType(lower: string)
  {
    StartsWith(lower, "text/")
    || StartsWith(lower, "application/json")
    || StartsWith(lower, "application/xml")
    || StartsWith(lower, "application/javascript")
    || StartsWith(lower, "application/x-www-form-urlencoded")
    || Contains(lower, "charset")
  }

  /** The families `is_binary_content_type` lists as binary. */
  predicate IsListedBinary(lower: string)
  {
    StartsWith(lower, "image/")
    || StartsWith(lower, "video/")
    || StartsWith(lower, "audio/")
    || StartsWith(lower, "application/octet-stream")
    || StartsWith(lower, "application/pdf")
    || StartsWith(lower, "application/zip")
    || StartsWith(lower, "application/x-")
  }

  /**
   * `is_binary_content_type`: the text test first, then the listed binary
   * families, then binary by default. The list makes no difference: a type
   * is binary exactly when it is not text.
   */
  function IsBinaryContentType(contentType: string): (b: bool)
    ensures b <==> !IsTextContentType(ToLower(contentType))
  {
    var lower := ToLower(contentType);
    if IsTextContentType(lower) then false
    else if IsListedBinary(lower) then true
    else true
  }

  /** Lower-casing twice is lower-casing once. */
  lemma ToLowerIdempotent(s: string)
    ensures ToLower(ToLower(s)) == ToLower(s)
  {
    assert forall i :: 0 <= i < |s| ==> LowerChar(LowerChar(s[i])) == LowerChar(s[i]);
  }

  /** The test does not depend on case. */
  lemma BinaryIgnoresCase(contentType: string)
    ensures IsBinaryContentType(ToLower(contentType)) == IsBinaryContentType(contentType)
  {
    ToLowerIdempotent(contentType);
  }

  /** HTML is text, whatever the case of its name. */
  lemma HtmlIsText()
    ensures !IsBinaryContentType("Text/HTML")
  {
    var lower := ToLower("Text/HTML");
    assert lower[0] == 't' && lower[1] == 'e' && lower[2] == 'x' && lower[3] == 't' && lower[4] == '/';
    assert lower[..5] == "text/";
  }

  /** No position of `s` starts the word "charset" when no char of `s` is 'h'. */
  lemma NoCharset(s: string)
    requires forall i :: 0 <= i < |s| ==> s[i] != 'h'
    ensures !Contains(s, "charset")
  {
    forall i | 0 <= i <= |s| ensures !OccursAt(s, "charset", i) {
      if i + 7 <= |s| {
        assert s[i..i + 7][1] == s[i + 1];
      }
    }
  }

  /** A string starts with the first char of each of its prefixes. */
  lemma StartsWithFirst(s: string, prefix: string)
    requires |prefix| > 0 && StartsWith(s, prefix)
    ensures s[0] == prefix[0]
  {
    assert s[..|prefix|][0] == s[0];
  }

  /** A lower-cased type that starts with neither 't' nor 'a' and has no 'h' is not text. */
  lemma NotTextByChars(lower: string)
    requires |lower| > 0 && lower[0] != 't' && lower[0] != 'a'
    requires forall i :: 0 <= i < |lower| ==> lower[i] != 'h'
    ensures !IsTextContentType(lower)
  {
    NoCharset(lower);
    if StartsWith(lower, "text/") { StartsWithFirst(lower, "text/"); }
    if StartsWith(lower, "application/json") { StartsWithFirst(lower, "application/json"); }
    if StartsWith(lower, "application/xml") { StartsWithFirst(lower, "application/xml"); }
    if StartsWith(lower, "application/javascript") { StartsWithFirst(lower, "application/javascript"); }
    if StartsWith(lower, "application/x-www-form-urlencoded") { StartsWithFirst(lower, "application/x-www-form-urlencoded"); }
  }

  /** A PNG image is binary. */
  lemma PngIsBinary()
    ensures IsBinaryContentType("image/png")
  {
    var lower := ToLower("image/png");
    assert lower[0] == 'i';
    assert forall i :: 0 <= i < |lower| ==> lower[i] != 'h';
    NotTextByChars(lower);
  }

  /** A type the lists do not know is binary. */
  lemma UnknownIsBinary()
    ensures IsBinaryContentType("font/otf")
  {
    var lower := "font/otf";
    assert ToLower(lower) == lower;
    NotTextByChars(lower);
  }

  /** What the URL checks of `send_request` decide: go ahead, or stop with an error message. */
  datatype UrlCheck = Accepted | Rejected(message: string)

  /** The URL checks of `send_request`: a blank URL, then one without an http or https scheme, is rejected. */
  function CheckUrl(url: string): (r: UrlCheck)
    ensures r == Accepted <==> |Trim(url)| > 0 && (StartsWith(url, "http://") || StartsWith(url, "https://"))
    ensures r == Rejected("URL cannot be empty") <==> forall k :: 0 <= k < |url| ==> IsWhitespace(url[k])
  {
    TrimEmptyIffBlank(url);
    if |Trim(url)| == 0 then Rejected("URL cannot be empty")
    else if !StartsWith(url, "http://") && !StartsWith(url, "https://") then Rejected("URL must start with http:// or https://")
    else Accepted
  }

  /** Everything `send_request` decides before it goes to the network: the URL checks first, then OPTIONS is refused. */
  function CheckRequest(config: RequestConfig): (r: UrlCheck)
    ensures r == Accepted <==> CheckUrl(config.url) == Accepted && config.httpMethod != OPTIONS
    ensures CheckUrl(config.url) != Accepted ==> r == CheckUrl(config.url)
    ensures CheckUrl(config.url) == Accepted && config.httpMethod == OPTIONS ==> r == Rejected("OPTIONS method not supported yet")
  {
    match CheckUrl(config.url)
    case Rejected(message) => Rejected(message)
    case Accepted => if config.httpMethod == OPTIONS then Rejected("OPTIONS method not supported yet") else Accepted
  }

  // ---- Shell words ----

  /** `o` with `a` put in front of its value. */
  function Prepend(a: string, o: Option<string>): Option<string>
  {
    if o.None? then None else Some(a + o.value)
  }

  /**
   * How a POSIX shell reads `w` as one word, with single quotes and
   * backslash escapes (`inQuote`: inside single quotes). `None` when the
   * word is cut by an unquoted space or a quote is left open.
   */
  function ReadWord(w: string, inQuote: bool): Option<string>
    decreases |w|
  {
    if |w| == 0 then (if inQuote then None else Some([]))
    else if inQuote then
      if w[0] == '\'' then ReadWord(w[1..], false) else Prepend([w[0]], ReadWord(w[1..], true))
    else if w[0] == '\'' then ReadWord(w[1..], true)
    else if w[0] == '\\' then (if |w| < 2 then None else Prepend([w[1]], ReadWord(w[2..], false)))
    else if w[0] == ' ' then None
    else Prepend([w[0]], ReadWord(w[1..], false))
  }

  /** `replace("'", "'\\''")`: every single quote closes the quoting, is written escaped, and reopens it. */
  function EscapeQuotes(s: string): (r: string)
    ensures !ContainsChar(s, '\'') ==> r == s
  {
    if |s| == 0 then []
    else (if s[0] == '\'' then "'\\''" else [s[0]]) + EscapeQuotes(s[1..])
  }

  /** A shell word: the escaped text in single quotes, as the body is quoted. */
  function Quote(s: string): (w: string)
    ensures |w| >= 2 && w[0] == '\'' && w[|w| - 1] == '\''
  {
    "'" + EscapeQuotes(s) + "'"
  }

  lemma PrependAssoc(a: string, b: string, o: Option<string>)
    ensures Prepend(a, Prepend(b, o)) == Prepend(a + b, o)
  {
    if o.Some? {
      assert a + (b + o.value) == (a + b) + o.value;
    }
  }

  /** Inside quotes, an escaped quote reads as a quote and quoting goes on. */
  lemma ReadEscapedQuote(tail: string)
    ensures ReadWord("'\\''" + tail, true) == Prepend("'", ReadWord(tail, true))
  {
    var w := "'\\''" + tail;
    assert w[1..] == "\\''" + tail;
    var w1 := w[1..];
    assert w1[0] == '\\' && w1[1] == '\'' && |w1| >= 2;
    var w2 := w1[2..];
    assert w2 == "'" + tail && w2[0] == '\'' && w2[1..] == tail;
    assert ReadWord(w, true) == ReadWord(w1, false);
    assert ReadWord(w1, false) == Prepend([w1[1]], ReadWord(w2, false));
    assert ReadWord(w2, false) == ReadWord(tail, true);
    assert [w1[1]] == "'";
  }

  /** Inside quotes, any other char reads as itself. */
  lemma ReadQuotedChar(c: char, tail: string)
    requires c != '\''
    ensures ReadWord([c] + tail, true) == Prepend([c], ReadWord(tail, true))
  {
    assert ([c] + tail)[1..] == tail;
  }

  /** Inside quotes, the escaped text reads back as the text, and reading goes on after the closing quote. */
  lemma {:induction false} ReadEscaped(s: string, rest: string)
    ensures ReadWord(EscapeQuotes(s) + "'" + rest, true) == Prepend(s, ReadWord(rest, false))
    decreases |s|
  {
    if |s| == 0 {
      var w := EscapeQuotes(s) + "'" + rest;
      assert w == "'" + rest && w[1..] == rest;
      var o := ReadWord(rest, false);
      if o.Some? {
        assert [] + o.value == o.value;
      }
    } else {
      var piece := if s[0] == '\'' then "'\\''" else [s[0]];
      var tail := EscapeQuotes(s[1..]) + "'" + rest;
      assert EscapeQuotes(s) + "'" + rest == piece + tail;
      ReadEscaped(s[1..], rest);
      if s[0] == '\'' {
        ReadEscapedQuote(tail);
        assert [s[0]] == "'";
      } else {
        ReadQuotedChar(s[0], tail);
      }
      PrependAssoc([s[0]], s[1..], ReadWord(rest, false));
      assert [s[0]] + s[1..] == s;
    }
  }

  /** The body's quoting round-trips: the shell reads the quoted body back as the body. */
  lemma QuoteRoundTrip(s: string)
    ensures ReadWord(Quote(s), false) == Some(s)
  {
    var w := Quote(s);
    assert w[1..] == EscapeQuotes(s) + "'" + [];
    ReadEscaped(s, []);
    assert s + [] == s;
  }

  /** A header, auth or URL word as written: the text in single quotes, unescaped. */
  function PlainQuote(s: string): (w: string)
    ensures |w| >= 2 && w[0] == '\'' && w[|w| - 1] == '\''
  {
    "'" + s + "'"
  }

  /** Text without a single quote in it needs no escaping: the plain word is the escaped one, and reads back. */
  lemma PlainQuoteExact(s: string)
    requires !ContainsChar(s, '\'')
    ensures PlainQuote(s) == Quote(s)
    ensures ReadWord(PlainQuote(s), false) == Some(s)
  {
    QuoteRoundTrip(s);
  }

  /** A header value with a single quote in it, written as the header loop writes it, is not one shell word. */
  lemma PlainQuoteBreaks()
    ensures ReadWord(PlainQuote("X: it's"), false) == None
  {
    var w := PlainQuote("X: it's");
    assert w == "'X: it's'";
    assert w[1..] == "X: it's'";
    assert w[1..][1..] == ": it's'";
    assert w[1..][1..][1..] == " it's'";
    assert w[1..][1..][1..][1..] == "it's'";
    assert w[1..][1..][1..][1..][1..] == "t's'";
    assert w[1..][1..][1..][1..][1..][1..] == "'s'";
    assert w[1..][1..][1..][1..][1..][1..][1..] == "s'";
    assert w[1..][1..][1..][1..][1..][1..][1..][1..] == "'";
    assert ReadWord("'", false) == ReadWord([], true);
  }


  // ---- The curl command ----

  /** `-X METHOD` for every method but GET. */
  function MethodParts(m: HttpMethod): seq<string>
  {
    if m != GET then ["-X", MethodName(m)] else []
  }

  /** A header pair takes part unless its key or its value is empty. */
  predicate Kept(pair: (string, string))
  {
    |pair.0| > 0 && |pair.1| > 0
  }

  /**
   * The header word `'key: value'` as it evidently should be written:
   * quoted the way the body is, so that a single quote in the key or the
   * value survives the shell.
   */
  function HeaderWord(pair: (string, string)): (w: string)
    ensures ReadWord(w, false) == Some(pair.0 + ": " + pair.1)
  {
    QuoteRoundTrip(pair.0 + ": " + pair.1);
    Quote(pair.0 + ": " + pair.1)
  }

  /** The text of a header word: `key: value`. */
  function HeaderText(pair: (string, string)): string
  {
    pair.0 + ": " + pair.1
  }

  /** The `-H` arguments for the headers, in order, skipping pairs with an empty key or value. */
  function HeaderParts(headers: seq<(string, string)>): seq<string>
  {
    if |headers| == 0 then []
    else
      var last := headers[|headers| - 1];
      HeaderParts(headers[..|headers| - 1]) + (if Kept(last) then ["-H", PlainQuote(HeaderText(last))] else [])
  }

  /** The kept header pairs, in order. */
  function KeptPairs(pairs: seq<(string, string)>): (r: seq<(string, string)>)
    ensures forall i :: 0 <= i < |r| ==> Kept(r[i])
  {
    if |pairs| == 0 then []
    else
      var last := pairs[|pairs| - 1];
      KeptPairs(pairs[..|pairs| - 1]) + (if Kept(last) then [last] else [])
  }

  /** Each kept header gives exactly the two arguments `-H` and its word, in order. */
  lemma {:induction false} HeaderPartsSpec(headers: seq<(string, string)>)
    ensures |HeaderParts(headers)| == 2 * |KeptPairs(headers)|
    ensures forall i :: 0 <= i < |KeptPairs(headers)| ==>
      HeaderParts(headers)[2 * i] == "-H" && HeaderParts(headers)[2 * i + 1] == PlainQuote(HeaderText(KeptPairs(headers)[i]))
  {
    if |headers| > 0 {
      HeaderPartsSpec(headers[..|headers| - 1]);
    }
  }

  /** The authentication arguments for the request's auth type, each only when its fields are filled in. */
  function AuthParts(config: RequestConfig): seq<string>
  {
    match config.authType
    case NoAuth => []
    case Bearer =>
      if |config.bearerToken| > 0 then ["-H", PlainQuote("Authorization: Bearer " + config.bearerToken)] else []
    case Basic =>
      if |config.basicUsername| == 0 then []
      else if |config.basicPassword| == 0 then ["-u", PlainQuote(config.basicUsername)]
      else ["-u", PlainQuote(config.basicUsername + ":" + config.basicPassword)]
    case ApiKey =>
      if |config.apiKey| > 0 && |config.apiKeyHeader| > 0 then ["-H", PlainQuote(config.apiKeyHeader + ": " + config.apiKey)] else []
  }

  predicate HasBody(m: HttpMethod)
  {
    m == POST || m == PUT || m == PATCH
  }

  /** `-d` and the quoted body, for POST, PUT and PATCH with a non-empty body. */
  function BodyParts(config: RequestConfig): seq<string>
  {
    if HasBody(config.httpMethod) && |config.body| > 0 then ["-d", Quote(config.body)] else []
  }

  /** `key=value` for each query parameter with a non-empty key and value, both encoded, in order. */
  function QueryPairs(params: seq<(string, string)>, encode: string -> string): seq<string>
  {
    if |params| == 0 then []
    else
      var last := params[|params| - 1];
      QueryPairs(params[..|params| - 1], encode) + (if Kept(last) then [encode(last.0) + "=" + encode(last.1)] else [])
  }

  /** `parts.join(sep)`. */
  function Join(parts: seq<string>, sep: string): string
  {
    if |parts| == 0 then []
    else if |parts| == 1 then parts[0]
    else Join(parts[..|parts| - 1], sep) + sep + parts[|parts| - 1]
  }

  /** The URL with the query string added after '?', or after '&' when the URL already has a '?'. */
  function FullUrl(url: string, query: seq<string>): (r: string)
    ensures |query| == 0 ==> r == url
    ensures |query| > 0 ==> r == url + (if ContainsChar(url, '?') then "&" else "?") + Join(query, "&")
  {
    if |query| == 0 then url
    else url + (if ContainsChar(url, '?') then "&" else "?") + Join(query, "&")
  }

  lemma AppendAssoc(a: seq<string>, b: seq<string>, c: seq<string>)
    ensures a + (b + c) == (a + b) + c
  {
  }

  /** The arguments of the curl command, in the order `generate_curl_command` pushes them. */
  function CurlParts(config: RequestConfig, encode: string -> string): seq<string>
  {
    ["curl"] + MethodParts(config.httpMethod) + CurlTail(config, encode)
  }

  /** The arguments after the method's: headers, auth, body and the quoted URL. */
  function CurlTail(config: RequestConfig, encode: string -> string): seq<string>
  {
    HeaderParts(config.headers) + AuthParts(config) + BodyParts(config)
    + [PlainQuote(FullUrl(config.url, QueryPairs(config.params, encode)))]
  }

  /** Every argument after the method's is a flag other than `-X`, or a quoted word. */
  predicate FlagOrWord(p: string)
  {
    p == "-H" || p == "-u" || p == "-d" || (|p| > 0 && p[0] == '\'')
  }

  predicate AllFlagsOrWords(parts: seq<string>)
  {
    forall i :: 0 <= i < |parts| ==> FlagOrWord(parts[i])
  }

  lemma FlagsOrWordsAppend(a: seq<string>, b: seq<string>)
    requires AllFlagsOrWords(a) && AllFlagsOrWords(b)
    ensures AllFlagsOrWords(a + b)
  {
    forall i | 0 <= i < |a + b|
      ensures FlagOrWord((a + b)[i])
    {
      if i >= |a| {
        assert (a + b)[i] == b[i - |a|];
      }
    }
  }

  lemma {:induction false} HeaderPartsFlagsOrWords(headers: seq<(string, string)>)
    ensures AllFlagsOrWords(HeaderParts(headers))
  {
    if |headers| > 0 {
      var last := headers[|headers| - 1];
      HeaderPartsFlagsOrWords(headers[..|headers| - 1]);
      if Kept(last) {
        var w := PlainQuote(HeaderText(last));
        assert FlagOrWord(w);
      }
      FlagsOrWordsAppend(HeaderParts(headers[..|headers| - 1]), if Kept(last) then ["-H", PlainQuote(HeaderText(last))] else []);
    }
  }

  lemma CurlTailHasNoMethodFlag(config: RequestConfig, encode: string -> string)
    ensures "-X" !in CurlTail(config, encode)
  {
    var headers := HeaderParts(config.headers);
    var auth := AuthParts(config);
    var body := BodyParts(config);
    var url := [PlainQuote(FullUrl(config.url, QueryPairs(config.params, encode)))];
    HeaderPartsFlagsOrWords(config.headers);
    assert AllFlagsOrWords(auth);
    assert AllFlagsOrWords(body);
    assert AllFlagsOrWords(url);
    FlagsOrWordsAppend(headers, auth);
    FlagsOrWordsAppend(headers + auth, body);
    FlagsOrWordsAppend(headers + auth + body, url);
    assert CurlTail(config, encode) == headers + auth + body + url;
    assert !FlagOrWord("-X");
  }

  /**
   * The command starts with `curl` and ends with the quoted URL, and it has
   * a `-X` argument exactly when the method is not GET, in which case the
   * method's name follows it right after `curl`.
   */
  lemma CurlShape(config: RequestConfig, encode: string -> string)
    ensures var parts := CurlParts(config, encode);
      parts[0] == "curl"
      && parts[|parts| - 1] == PlainQuote(FullUrl(config.url, QueryPairs(config.params, encode)))
      && ("-X" in parts <==> config.httpMethod != GET)
      && (config.httpMethod != GET ==> parts[1] == "-X" && parts[2] == MethodName(config.httpMethod))
  {
    var rest := CurlTail(config, encode);
    CurlTailHasNoMethodFlag(config, encode);
    if config.httpMethod == GET {
      assert CurlParts(config, encode) == ["curl"] + rest;
    } else {
      assert CurlParts(config, encode) == ["curl", "-X", MethodName(config.httpMethod)] + rest;
    }
  }

  /**
   * `generate_curl_command`: push `curl`, the method, the kept headers,
   * the auth arguments, the body, then the URL with its query string, and
   * join them with spaces. Only the body has its single quotes escaped;
   * the header, auth and URL words are put in plain single quotes.
   */
  method GenerateCurlCommand(config: RequestConfig, encode: string -> string) returns (command: string)
    ensures command == Join(CurlParts(config, encode), " ")
  {
    var parts := ["curl"];
    if config.httpMethod != GET {
      parts := parts + ["-X", MethodName(config.httpMethod)];
    }
    var i := 0;
    while i < |config.headers|
      invariant i <= |config.headers|
      invariant parts == ["curl"] + MethodParts(config.httpMethod) + HeaderParts(config.headers[..i])
    {
      var (key, value) := config.headers[i];
      assert config.headers[..i + 1][..i] == config.headers[..i];
      if |key| > 0 && |value| > 0 {
        parts := parts + ["-H", PlainQuote(key + ": " + value)];
      }
      i := i + 1;
    }
    assert config.headers[..i] == config.headers;
    parts := parts + AuthParts(config);
    if HasBody(config.httpMethod) && |config.body| > 0 {
      parts := parts + ["-d", Quote(config.body)];
    }
    assert parts == ["curl"] + MethodParts(config.httpMethod) + HeaderParts(config.headers) + AuthParts(config) + BodyParts(config);
    var query: seq<string> := [];
    var j := 0;
    while j < |config.params|
      invariant j <= |config.params|
      invariant query == QueryPairs(config.params[..j], encode)
    {
      var (key, value) := config.params[j];
      assert config.params[..j + 1][..j] == config.params[..j];
      if |key| > 0 && |value| > 0 {
        query := query + [encode(key) + "=" + encode(value)];
      }
      j := j + 1;
    }
    assert config.params[..j] == config.params;
    var url := config.url;
    if |query| > 0 {
      if ContainsChar(url, '?') {
        url := url + "&";
      } else {
        url := url + "?";
      }
      url := url + Join(query, "&");
    }
    assert url == FullUrl(config.url, QueryPairs(config.params, encode));
    parts := parts + [PlainQuote(url)];
    ghost var head := ["curl"] + MethodParts(config.httpMethod);
    ghost var middle := HeaderParts(config.headers) + AuthParts(config) + BodyParts(config);
    AppendAssoc(head, HeaderParts(config.headers) + AuthParts(config), BodyParts(config));
    AppendAssoc(head, HeaderParts(config.headers), AuthParts(config));
    AppendAssoc(head, middle, [PlainQuote(url)]);
    command := Join(parts, " ");
  }
}
