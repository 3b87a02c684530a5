// The shared data types of the application (src/types.rs): HTTP methods,
// authentication kinds, requests, collections and environments.

module Types {
  import opened Wrappers

  datatype HttpMethod = GET | POST | PUT | DELETE | PATCH | HEAD | OPTIONS

  /** `Display` for `HttpMethod`: the method's upper-case name. */
  function MethodName(m: HttpMethod): (s: string)
  {
    match m
    case GET => "GET"
    case POST => "POST"
    case PUT => "PUT"
    case DELETE => "DELETE"
    case PATCH => "PATCH"
    case HEAD => "HEAD"
    case OPTIONS => "OPTIONS"
  }

  predicate IsUpperName(s: string)
  {
    |s| > 0 && forall i :: 0 <= i < |s| ==> 'A' <= s[i] <= 'Z'
  }

  /** Method names are upper case and tell the methods apart. */
  lemma MethodNameProperties(a: HttpMethod, b: HttpMethod)
    ensures IsUpperName(MethodName(a))
    ensures MethodName(a) == MethodName(b) <==> a == b
  {
    if a != b {
      assert MethodName(a)[0] != MethodName(b)[0] || MethodName(a)[1] != MethodName(b)[1];
    }
  }

  datatype AuthType = NoAuth | Bearer | Basic | ApiKey

  /** `AuthType::default`. */
  const DefaultAuthType: AuthType := NoAuth

  /** `Display` for `AuthType`. */
  function AuthLabel(a: AuthType): string
  {
    match a
    case NoAuth => "None"
    case Bearer => "Bearer Token"
    case Basic => "Basic Auth"
    case ApiKey => "API Key"
  }

  /** The labels tell the authentication kinds apart, and the default one reads "None". */
  lemma AuthLabelProperties(a: AuthType, b: AuthType)
    ensures AuthLabel(a) == AuthLabel(b) <==> a == b
    ensures AuthLabel(DefaultAuthType) == "None"
  {
    if a != b {
      assert AuthLabel(a)[0] != AuthLabel(b)[0] || AuthLabel(a)[1] != AuthLabel(b)[1];
    }
  }

  /** The body formats the request editor offers. */
  datatype BodyFormat = Json | Xml | Text | GraphQL | NoFormat

  /** Bookkeeping stored with a request; its contents are not part of this model. */
  datatype RequestMetadata = DefaultMetadata | Recorded(id: nat)

  datatype RenameTarget = Folder(collectionIndex: nat) | Request(collectionIndex: nat, requestIndex: nat)

  datatype RequestConfig = RequestConfig(
    name: string,
    httpMethod: HttpMethod,
    url: string,
    headers: seq<(string, string)>,
    params: seq<(string, string)>,
    body: string,
    contentType: string,
    bodyFormat: BodyFormat,
    authType: AuthType,
    bearerToken: string,
    basicUsername: string,
    basicPassword: string,
    apiKey: string,
    apiKeyHeader: string,
    collectionIndex: nat,
    requestIndex: nat,
    metadata: Option<RequestMetadata>)

  /** `RequestConfig::default`. */
  function DefaultRequest(): (r: RequestConfig)
    ensures r.name == "New Request" && r.httpMethod == GET && r.authType == NoAuth
    ensures r.url == [] && r.body == [] && r.contentType == [] && r.headers == [] && r.params == []
    ensures r.bearerToken == [] && r.basicUsername == [] && r.basicPassword == [] && r.apiKey == [] && r.apiKeyHeader == []
    ensures r.collectionIndex == 0 && r.requestIndex == 0
  {
    RequestConfig("New Request", GET, "", [], [], "", "", NoFormat, NoAuth, "", "", "", "", "", 0, 0, Some(DefaultMetadata))
  }

  /** Two requests agree on everything the user edits: every field but the metadata. */
  predicate SameContent(a: RequestConfig, b: RequestConfig)
  {
    a.(metadata := None) == b.(metadata := None)
  }

  /** `Clone` for `RequestConfig`: every field is copied except the metadata, which starts afresh. */
  function CloneRequest(r: RequestConfig): (c: RequestConfig)
    ensures SameContent(c, r)
    ensures c.metadata == Some(DefaultMetadata)
  {
    r.(metadata := Some(DefaultMetadata))
  }

  /** Cloning a clone gives the same request, and cloning a freshly defaulted request changes nothing. */
  lemma CloneIdempotent(r: RequestConfig)
    ensures CloneRequest(CloneRequest(r)) == CloneRequest(r)
    ensures CloneRequest(DefaultRequest()) == DefaultRequest()
  {
  }

  datatype RequestCollection = RequestCollection(name: string, requests: seq<RequestConfig>, expanded: bool)

  /**
   * The derived `Clone` for `RequestCollection`: name and flag are copied and
   * each request goes through `CloneRequest`, so every copy starts with
   * fresh metadata.
   */
  function CloneCollection(c: RequestCollection): (d: RequestCollection)
    ensures d.name == c.name && d.expanded == c.expanded && |d.requests| == |c.requests|
    ensures forall k | 0 <= k < |c.requests| ::
              SameContent(d.requests[k], c.requests[k]) && d.requests[k].metadata == Some(DefaultMetadata)
  {
    c.(requests := seq(|c.requests|, k requires 0 <= k < |c.requests| => CloneRequest(c.requests[k])))
  }

  /** Cloning a cloned collection changes nothing more. */
  lemma CloneCollectionIdempotent(c: RequestCollection)
    ensures CloneCollection(CloneCollection(c)) == CloneCollection(c)
  {
    var once := CloneCollection(c);
    assert CloneCollection(once).requests == once.requests;
  }

  /** The tabs of the request editor. */
  datatype RequestTab = BodyTab | ParamsTab | HeadersTab | AuthTab | EnvironmentTab

  /** A received response; `status` is a `u16` and `size` a `usize` in the program. */
  datatype ResponseData = ResponseData(
    status: nat,
    statusText: string,
    headers: seq<(string, string)>,
    body: string,
    contentType: string,
    isBinary: bool,
    size: nat,
    time: nat)

  /** The tabs of the response viewer. */
  datatype ResponseTab = ResponseBodyTab | ResponseHeadersTab

  /** A named set of variables; `add_variable` updates it in place. */
  class Environment {
    var name: string
    var variables: map<string, string>
    var description: Option<string>

    /** `Environment::new`: no variables and no description. */
    constructor (name: string)
      ensures this.name == name && variables == map[] && description == None
    {
      this.name := name;
      variables := map[];
      description := None;
    }

    /** Insert or overwrite one variable, leaving every other key as it was. */
    method AddVariable(key: string, value: string)
      modifies this
      ensures GetVariable(key) == Some(value)
      ensures forall k :: k != key ==> GetVariable(k) == old(GetVariable(k))
      ensures name == old(name) && description == old(description)
    {
      variables := variables[key := value];
    }

    function GetVariable(key: string): (r: Option<string>)
      reads this
      ensures r.Some? <==> key in variables
      ensures r.Some? ==> r.value == variables[key]
    {
      if key in variables then Some(variables[key]) else None
    }
  }
}
