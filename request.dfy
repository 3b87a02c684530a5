// The request editor panel (src/ui/request.rs): the messages its widgets
// send, what `RequestPanel::update` does with each of them to the panel's
// own state and which action it hands back to the application, the label
// the Body tab shows for a content type, and the check that enables the
// Send button.
//
// The URL input and the body editor are undoable widgets with their own
// `update` (modules UrlInput and Undoable); here their messages arrive
// already reduced to what that `update` returned. Clocks and widget ids
// are parameters, and the JSON library's pretty-printing of the body
// arrives as a value (`None` when the body does not parse).

module RequestPanel {
  import opened Wrappers
  import opened Strings
  import opened Types
  import Overlay
  import opened RequestContent

  /** An action of the text editor widget; the panel passes it on untouched. */
  datatype EditorAction = EditorAction(code: nat)

  /** A key-value row of the Headers or Params tab. */
  type Pair = (string, string)

  datatype Message =
    | ClickSendRequest
    | CancelRequest
      // A URL input message, as the new URL its `update` returned, if any.
    | UrlInputMessage(urlChange: Option<string>)
      // The body editor's Find shortcut.
    | EditorFind
      // Any other body editor message, as the new body its `update` returned, if any.
    | EditorMessage(bodyChange: Option<string>)
    | MethodChanged(httpMethod: HttpMethod)
    | SendButtonHovered(hovered: bool)
    | CancelButtonHovered(hovered: bool)
    | TabSelected(tab: RequestTab)
    | HeaderKeyChanged(index: nat, text: string)
    | HeaderValueChanged(index: nat, text: string)
    | AddHeader
    | RemoveHeader(index: nat)
    | ParamKeyChanged(index: nat, text: string)
    | ParamValueChanged(index: nat, text: string)
    | AddParam
    | RemoveParam(index: nat)
    | BodyChanged(action: EditorAction)
    | BodyFormatChanged(format: BodyFormat)
    | AuthTypeChanged(authType: AuthType)
    | BearerTokenChanged(text: string)
    | BasicUsernameChanged(text: string)
    | BasicPasswordChanged(text: string)
    | ApiKeyChanged(text: string)
    | ApiKeyHeaderChanged(text: string)
    | ScriptChanged(action: EditorAction)
    | OpenEnvironmentPopup
    | ToggleMethodMenu
    | CloseMethodMenu
    | ToggleBodyFormatMenu
    | CloseBodyFormatMenu
    | FormatRequestBody
    | DoNothing
    | EnvironmentSelected(index: nat)
    | SearchQueryChanged(text: string)
    | FindNext
    | FindPrevious
    | SubmitSearch
    | CloseSearch
    | SearchFound(start: Overlay.Position, end: Overlay.Position)
    | SearchNotFound
    | FocusSearch
    | ScrollToMatchResponse(y: real)

  datatype Action =
    | UpdateCurrentRequest(request: RequestConfig)
    | SendRequest(sentAt: nat)
    | CancelRequestAction
    | UpdateActiveEnvironment(environment: nat)
      // A task that waits `delayMs` milliseconds and then sends FocusSearch.
    | RunFocusSearchAfter(delayMs: nat)
      // A task asking the body editor for the height of `line`; the answer comes back as ScrollToMatchResponse.
    | RunQueryScrollY(line: nat)
      // A task scrolling the request body to the vertical offset `offsetY`.
    | RunScrollTo(offsetY: real)
    | EditRequestBody(editorAction: EditorAction)
    | EditRequestPostRequestScript(editorAction: EditorAction)
    | Focus(id: nat)
    | SearchNext(id: nat)
    | SearchPrevious(id: nat)
    | SubmitSearchAction(id: nat)
    | FormatRequestBodyAction(formatted: string)
    | OpenEnvironmentPopupAction
    | NoAction

  /**
   * What `update` reads besides the message and the panel: the request
   * being edited, how many environments there are, the current instant, and
   * the request body pretty-printed by the JSON library (`None` when the
   * body does not parse as JSON).
   */
  datatype Context = Context(current: RequestConfig, environmentCount: nat, now: nat, prettyJson: Option<string>)

  // ---- Header and parameter rows ----

  /** Setting the key of the row at `index` through `get_mut`: a missing row changes nothing. */
  function WithKey(pairs: seq<Pair>, index: nat, key: string): (r: seq<Pair>)
    ensures |r| == |pairs|
    ensures forall i :: 0 <= i < |r| ==> r[i].1 == pairs[i].1 && r[i].0 == (if i == index then key else pairs[i].0)
  {
    if index < |pairs| then pairs[index := (key, pairs[index].1)] else pairs
  }

  /** Setting the value of the row at `index` through `get_mut`: a missing row changes nothing. */
  function WithValue(pairs: seq<Pair>, index: nat, value: string): (r: seq<Pair>)
    ensures |r| == |pairs|
    ensures forall i :: 0 <= i < |r| ==> r[i].0 == pairs[i].0 && r[i].1 == (if i == index then value else pairs[i].1)
  {
    if index < |pairs| then pairs[index := (pairs[index].0, value)] else pairs
  }

  /** Pushing an empty row. */
  function WithEmptyPair(pairs: seq<Pair>): (r: seq<Pair>)
    ensures |r| == |pairs| + 1 && r[..|pairs|] == pairs && r[|pairs|] == ("", "")
  {
    pairs + [("", "")]
  }

  /** Removing the row at `index` when it exists; the rows after it move up by one. */
  function WithoutPair(pairs: seq<Pair>, index: nat): (r: seq<Pair>)
    ensures index < |pairs| ==> (|r| + 1 == |pairs|
      && (forall i :: 0 <= i < index ==> r[i] == pairs[i])
      && (forall i :: index <= i < |r| ==> r[i] == pairs[i + 1]))
    ensures index >= |pairs| ==> r == pairs
  {
    if index < |pairs| then pairs[..index] + pairs[index + 1..] else pairs
  }

  /**
   * Key and value edits are independent: editing keys and values commutes,
   * and of two key edits (or two value edits) of the same row the later one
   * wins.
   */
  lemma PairEditsCommute(pairs: seq<Pair>, i: nat, j: nat, key: string, key2: string, value: string, value2: string)
    ensures WithValue(WithKey(pairs, i, key), j, value) == WithKey(WithValue(pairs, j, value), i, key)
    ensures WithKey(WithKey(pairs, i, key), i, key2) == WithKey(pairs, i, key2)
    ensures WithValue(WithValue(pairs, j, value), j, value2) == WithValue(pairs, j, value2)
  {
  }

  /** Removing the row just added, whatever was typed into it, gives back the rows there were. */
  lemma AddThenRemovePair(pairs: seq<Pair>, key: string, value: string)
    ensures WithoutPair(WithEmptyPair(pairs), |pairs|) == pairs
    ensures WithoutPair(WithValue(WithKey(WithEmptyPair(pairs), |pairs|, key), |pairs|, value), |pairs|) == pairs
  {
    var added := WithValue(WithKey(WithEmptyPair(pairs), |pairs|, key), |pairs|, value);
    assert added[..|pairs|] == pairs;
  }

  // ---- The update function ----

  /** The messages that edit the request. */
  predicate EditsRequest(m: Message)
  {
    m.EditorMessage? || m.UrlInputMessage? || m.MethodChanged? || m.HeaderKeyChanged? ||
    m.HeaderValueChanged? || m.AddHeader? || m.RemoveHeader? || m.ParamKeyChanged? ||
    m.ParamValueChanged? || m.AddParam? || m.RemoveParam? || m.BodyFormatChanged? ||
    m.AuthTypeChanged? || m.BearerTokenChanged? || m.BasicUsernameChanged? ||
    m.BasicPasswordChanged? || m.ApiKeyChanged? || m.ApiKeyHeaderChanged?
  }

  /** The messages of the search bar. */
  predicate SearchMessage(m: Message)
  {
    m.EditorFind? || m.SearchQueryChanged? || m.FindNext? || m.FindPrevious? ||
    m.SubmitSearch? || m.SearchFound? || m.ScrollToMatchResponse? || m.SearchNotFound? ||
    m.CloseSearch? || m.FocusSearch?
  }

  /** The action `update` returns for `m`; `searchInputId` is the id of the panel's search input. */
  function Reply(m: Message, ctx: Context, searchInputId: nat): Action
  {
    if EditsRequest(m) then EditReply(m, ctx)
    else if SearchMessage(m) then SearchReply(m, searchInputId)
    else ControlReply(m, ctx, searchInputId)
  }

  /** The edited clone of the request that goes back to the application. */
  function EditReply(m: Message, ctx: Context): (a: Action)
    requires EditsRequest(m)
    ensures a.UpdateCurrentRequest? || (a == NoAction && (m.EditorMessage? || m.UrlInputMessage?))
    ensures a.UpdateCurrentRequest? ==>
              (a.request.name == ctx.current.name
               && a.request.collectionIndex == ctx.current.collectionIndex
               && a.request.requestIndex == ctx.current.requestIndex
               && a.request.metadata == Some(DefaultMetadata))
  {
    match m
    case EditorMessage(change) => if change.Some? then UpdateCurrentRequest(CloneRequest(ctx.current).(body := change.value)) else NoAction
    case UrlInputMessage(change) => if change.Some? then UpdateCurrentRequest(CloneRequest(ctx.current).(url := change.value)) else NoAction
    case MethodChanged(httpMethod) => UpdateCurrentRequest(CloneRequest(ctx.current).(httpMethod := httpMethod))
    case HeaderKeyChanged(i, key) => UpdateCurrentRequest(CloneRequest(ctx.current).(headers := WithKey(ctx.current.headers, i, key)))
    case HeaderValueChanged(i, value) => UpdateCurrentRequest(CloneRequest(ctx.current).(headers := WithValue(ctx.current.headers, i, value)))
    case AddHeader => UpdateCurrentRequest(CloneRequest(ctx.current).(headers := WithEmptyPair(ctx.current.headers)))
    case RemoveHeader(i) => UpdateCurrentRequest(CloneRequest(ctx.current).(headers := WithoutPair(ctx.current.headers, i)))
    case ParamKeyChanged(i, key) => UpdateCurrentRequest(CloneRequest(ctx.current).(params := WithKey(ctx.current.params, i, key)))
    case ParamValueChanged(i, value) => UpdateCurrentRequest(CloneRequest(ctx.current).(params := WithValue(ctx.current.params, i, value)))
    case AddParam => UpdateCurrentRequest(CloneRequest(ctx.current).(params := WithEmptyPair(ctx.current.params)))
    case RemoveParam(i) => UpdateCurrentRequest(CloneRequest(ctx.current).(params := WithoutPair(ctx.current.params, i)))
    case BodyFormatChanged(format) =>
      UpdateCurrentRequest(CloneRequest(ctx.current).(bodyFormat := format, contentType := ContentTypeFor(format, ctx.current.contentType)))
    case AuthTypeChanged(authType) => UpdateCurrentRequest(CloneRequest(ctx.current).(authType := authType))
    case BearerTokenChanged(t) => UpdateCurrentRequest(CloneRequest(ctx.current).(bearerToken := t))
    case BasicUsernameChanged(t) => UpdateCurrentRequest(CloneRequest(ctx.current).(basicUsername := t))
    case BasicPasswordChanged(t) => UpdateCurrentRequest(CloneRequest(ctx.current).(basicPassword := t))
    case ApiKeyChanged(t) => UpdateCurrentRequest(CloneRequest(ctx.current).(apiKey := t))
    case ApiKeyHeaderChanged(t) => UpdateCurrentRequest(CloneRequest(ctx.current).(apiKeyHeader := t))
    case _ => NoAction
  }

  /** The action for a message of the search bar. */
  function SearchReply(m: Message, searchInputId: nat): (a: Action)
    requires SearchMessage(m)
    ensures !a.UpdateCurrentRequest? && !a.SendRequest? && !a.UpdateActiveEnvironment?
  {
    match m
    case EditorFind => RunFocusSearchAfter(10)
    case SearchQueryChanged(_) => NoAction
    case FindNext => SearchNext(searchInputId)
    case FindPrevious => SearchPrevious(searchInputId)
    case SubmitSearch => SubmitSearchAction(searchInputId)
    case SearchFound(start, _) => RunQueryScrollY(start.line)
    case ScrollToMatchResponse(y) => RunScrollTo(Overlay.MatchScrollOffset(y))
    case SearchNotFound => NoAction
    case CloseSearch => NoAction
    case FocusSearch => Focus(searchInputId)
    case _ => NoAction
  }

  /** The action for the buttons, tabs, menus and the other messages. */
  function ControlReply(m: Message, ctx: Context, searchInputId: nat): (a: Action)
    requires !EditsRequest(m) && !SearchMessage(m)
    ensures !a.UpdateCurrentRequest?
    ensures a.SendRequest? <==> m == ClickSendRequest
    ensures a.UpdateActiveEnvironment? <==> m.EnvironmentSelected? && m.index < ctx.environmentCount
  {
    match m
    case ClickSendRequest => SendRequest(ctx.now)
    case CancelRequest => CancelRequestAction
    case SendButtonHovered(_) => NoAction
    case CancelButtonHovered(_) => NoAction
    case TabSelected(_) => NoAction
    case BodyChanged(a) => EditRequestBody(a)
    case FormatRequestBody =>
      var formatted := FormattedBody(ctx.current.body, ctx.current.bodyFormat, ctx.prettyJson);
      if formatted.Some? then FormatRequestBodyAction(formatted.value) else NoAction
    case OpenEnvironmentPopup => OpenEnvironmentPopupAction
    case EnvironmentSelected(i) => if i < ctx.environmentCount then UpdateActiveEnvironment(i) else NoAction
    case ToggleMethodMenu => NoAction
    case CloseMethodMenu => NoAction
    case ToggleBodyFormatMenu => NoAction
    case CloseBodyFormatMenu => NoAction
    case ScriptChanged(a) => EditRequestPostRequestScript(a)
    case DoNothing => NoAction
    case _ => NoAction
  }

  /** The edits of the Headers tab: each yields the request with only its headers changed, as the row operations say. */
  lemma HeaderEdits(m: Message, ctx: Context, id: nat)
    requires m.HeaderKeyChanged? || m.HeaderValueChanged? || m.AddHeader? || m.RemoveHeader?
    ensures Reply(m, ctx, id).UpdateCurrentRequest?
    ensures var r := Reply(m, ctx, id).request;
      r == CloneRequest(ctx.current).(headers := r.headers)
      && (m.HeaderKeyChanged? ==> r.headers == WithKey(ctx.current.headers, m.index, m.text))
      && (m.HeaderValueChanged? ==> r.headers == WithValue(ctx.current.headers, m.index, m.text))
      && (m.AddHeader? ==> r.headers == WithEmptyPair(ctx.current.headers))
      && (m.RemoveHeader? ==> r.headers == WithoutPair(ctx.current.headers, m.index))
  {
  }

  /** The edits of the Params tab: each yields the request with only its parameters changed, as the row operations say. */
  lemma ParamEdits(m: Message, ctx: Context, id: nat)
    requires m.ParamKeyChanged? || m.ParamValueChanged? || m.AddParam? || m.RemoveParam?
    ensures Reply(m, ctx, id).UpdateCurrentRequest?
    ensures var r := Reply(m, ctx, id).request;
      r == CloneRequest(ctx.current).(params := r.params)
      && (m.ParamKeyChanged? ==> r.params == WithKey(ctx.current.params, m.index, m.text))
      && (m.ParamValueChanged? ==> r.params == WithValue(ctx.current.params, m.index, m.text))
      && (m.AddParam? ==> r.params == WithEmptyPair(ctx.current.params))
      && (m.RemoveParam? ==> r.params == WithoutPair(ctx.current.params, m.index))
  {
  }

  /**
   * Choosing a method, and a URL or body change the widget reports, each
   * yield the request with only that field set; a widget message that
   * changes nothing yields no action.
   */
  lemma FieldEdits(m: Message, ctx: Context, id: nat)
    requires m.MethodChanged? || m.UrlInputMessage? || m.EditorMessage?
    ensures m.MethodChanged? ==>
      Reply(m, ctx, id) == UpdateCurrentRequest(CloneRequest(ctx.current).(httpMethod := m.httpMethod))
    ensures m.UrlInputMessage? ==>
      Reply(m, ctx, id) ==
        if m.urlChange.Some? then UpdateCurrentRequest(CloneRequest(ctx.current).(url := m.urlChange.value)) else NoAction
    ensures m.EditorMessage? ==>
      Reply(m, ctx, id) ==
        if m.bodyChange.Some? then UpdateCurrentRequest(CloneRequest(ctx.current).(body := m.bodyChange.value)) else NoAction
  {
  }

  /** Choosing the kind of authentication yields the request with only its auth type set. */
  lemma AuthTypeChoice(authType: AuthType, ctx: Context, id: nat)
    ensures Reply(AuthTypeChanged(authType), ctx, id) == UpdateCurrentRequest(CloneRequest(ctx.current).(authType := authType))
  {
  }

  /** Typing a bearer token or basic credentials yields the request with only that field set. */
  lemma BearerAndBasicEdits(m: Message, ctx: Context, id: nat)
    requires m.BearerTokenChanged? || m.BasicUsernameChanged? || m.BasicPasswordChanged?
    ensures m.BearerTokenChanged? ==> Reply(m, ctx, id) == UpdateCurrentRequest(CloneRequest(ctx.current).(bearerToken := m.text))
    ensures m.BasicUsernameChanged? ==> Reply(m, ctx, id) == UpdateCurrentRequest(CloneRequest(ctx.current).(basicUsername := m.text))
    ensures m.BasicPasswordChanged? ==> Reply(m, ctx, id) == UpdateCurrentRequest(CloneRequest(ctx.current).(basicPassword := m.text))
  {
  }

  /** Typing an API key or the header that carries it yields the request with only that field set. */
  lemma ApiKeyEdits(m: Message, ctx: Context, id: nat)
    requires m.ApiKeyChanged? || m.ApiKeyHeaderChanged?
    ensures m.ApiKeyChanged? ==> Reply(m, ctx, id) == UpdateCurrentRequest(CloneRequest(ctx.current).(apiKey := m.text))
    ensures m.ApiKeyHeaderChanged? ==> Reply(m, ctx, id) == UpdateCurrentRequest(CloneRequest(ctx.current).(apiKeyHeader := m.text))
  {
  }

  /**
   * Choosing a body format records it and sets the content type whose label
   * names it (no format keeps the content type); nothing else changes.
   */
  lemma BodyFormatChoice(format: BodyFormat, ctx: Context, id: nat)
    ensures Reply(BodyFormatChanged(format), ctx, id).UpdateCurrentRequest?
    ensures var r := Reply(BodyFormatChanged(format), ctx, id).request;
      r == CloneRequest(ctx.current).(bodyFormat := format, contentType := r.contentType)
      && (format == NoFormat ==> r.contentType == ctx.current.contentType)
      && (format != NoFormat ==> BodyLabel(r.contentType) == FormatLabel(format))
  {
    if format != NoFormat {
      FormatLabelRoundTrip(format, ctx.current.contentType);
    }
  }

  /**
   * Whatever the message, the request handed back keeps its name and its
   * place in the collections and carries fresh metadata.
   */
  lemma EditsKeepIdentity(m: Message, ctx: Context, id: nat)
    ensures Reply(m, ctx, id).UpdateCurrentRequest? ==>
      var r := Reply(m, ctx, id).request;
      r.name == ctx.current.name && r.collectionIndex == ctx.current.collectionIndex
      && r.requestIndex == ctx.current.requestIndex && r.metadata == Some(DefaultMetadata)
  {
  }

  /** Only the Send button sends, stamped with the current instant. */
  lemma OnlySendSends(m: Message, ctx: Context, id: nat)
    ensures Reply(m, ctx, id).SendRequest? <==> m == ClickSendRequest
    ensures Reply(m, ctx, id).SendRequest? ==> Reply(m, ctx, id).sentAt == ctx.now
  {
  }

  /** An environment is made active only when it is picked and exists. */
  lemma EnvironmentSelection(m: Message, ctx: Context, id: nat)
    ensures Reply(m, ctx, id).UpdateActiveEnvironment? <==> m.EnvironmentSelected? && m.index < ctx.environmentCount
    ensures Reply(m, ctx, id).UpdateActiveEnvironment? ==> Reply(m, ctx, id).environment == m.index
  {
  }

  /** A request panel; `update` changes its fields in place. */
  class Panel {
    var methodMenuOpen: bool
    var bodyFormatMenuOpen: bool
    var sendButtonHovered: bool
    var cancelButtonHovered: bool
    var selectedTab: RequestTab
    var showSearch: bool
    var searchQuery: string
    const searchInputId: nat
    var searchSelection: Option<(Overlay.Position, Overlay.Position)>

    /** `RequestPanel::default`: menus closed, nothing hovered, the Body tab, no search; `searchInputId` is the fresh unique id. */
    constructor (searchInputId: nat)
      ensures !methodMenuOpen && !bodyFormatMenuOpen && !sendButtonHovered && !cancelButtonHovered
      ensures selectedTab == BodyTab && !showSearch && searchQuery == [] && searchSelection == None
      ensures this.searchInputId == searchInputId
    {
      methodMenuOpen := false;
      bodyFormatMenuOpen := false;
      sendButtonHovered := false;
      cancelButtonHovered := false;
      selectedTab := BodyTab;
      showSearch := false;
      searchQuery := [];
      this.searchInputId := searchInputId;
      searchSelection := None;
    }

    /**
     * `RequestPanel::update`: returns `Reply(m, ...)` and changes the panel
     * as follows. Choosing a method closes the method menu, choosing a body
     * format closes the format menu and shows the Body tab, the toggles flip
     * their menu (the format one also shows the Body tab), Find opens the
     * search bar, a found match is remembered, a miss forgets it, and
     * closing the search bar also clears the query and the match.
     */
    method Update(m: Message, ctx: Context) returns (action: Action)
      modifies this
      ensures action == Reply(m, ctx, searchInputId)
      ensures methodMenuOpen ==
        if m.MethodChanged? || m.CloseMethodMenu? then false
        else if m.ToggleMethodMenu? then !old(methodMenuOpen) else old(methodMenuOpen)
      ensures bodyFormatMenuOpen ==
        if m.BodyFormatChanged? || m.CloseBodyFormatMenu? then false
        else if m.ToggleBodyFormatMenu? then !old(bodyFormatMenuOpen) else old(bodyFormatMenuOpen)
      ensures sendButtonHovered == if m.SendButtonHovered? then m.hovered else old(sendButtonHovered)
      ensures cancelButtonHovered == if m.CancelButtonHovered? then m.hovered else old(cancelButtonHovered)
      ensures selectedTab ==
        if m.TabSelected? then m.tab
        else if m.BodyFormatChanged? || m.ToggleBodyFormatMenu? then BodyTab else old(selectedTab)
      ensures showSearch == if m.EditorFind? then true else if m.CloseSearch? then false else old(showSearch)
      ensures searchQuery == if m.SearchQueryChanged? then m.text else if m.CloseSearch? then [] else old(searchQuery)
      ensures searchSelection ==
        if m.SearchFound? then Some((m.start, m.end))
        else if m.SearchNotFound? || m.CloseSearch? then None else old(searchSelection)
    {
      if EditsRequest(m) {
        action := EditRequest(m, ctx);
      } else if SearchMessage(m) {
        action := UpdateSearch(m, ctx);
      } else {
        action := UpdateControls(m, ctx);
      }
    }

    /** The messages that edit the request: the edited clone goes back to the application; only the menus of the method and the body format react. */
    method EditRequest(m: Message, ctx: Context) returns (action: Action)
      requires EditsRequest(m)
      modifies this
      ensures action == EditReply(m, ctx)
      ensures methodMenuOpen == if m.MethodChanged? then false else old(methodMenuOpen)
      ensures bodyFormatMenuOpen == if m.BodyFormatChanged? then false else old(bodyFormatMenuOpen)
      ensures selectedTab == if m.BodyFormatChanged? then BodyTab else old(selectedTab)
      ensures sendButtonHovered == old(sendButtonHovered) && cancelButtonHovered == old(cancelButtonHovered)
      ensures showSearch == old(showSearch) && searchQuery == old(searchQuery) && searchSelection == old(searchSelection)
    {
      if m.MethodChanged? {
        methodMenuOpen := false;
      } else if m.BodyFormatChanged? {
        bodyFormatMenuOpen := false;
        selectedTab := BodyTab;
      }
      action := EditReply(m, ctx);
    }

    /** The messages of the search bar; the menus, buttons and tabs stay as they are. */
    method UpdateSearch(m: Message, ctx: Context) returns (action: Action)
      requires SearchMessage(m)
      modifies this
      ensures action == SearchReply(m, searchInputId)
      ensures showSearch == if m.EditorFind? then true else if m.CloseSearch? then false else old(showSearch)
      ensures searchQuery == if m.SearchQueryChanged? then m.text else if m.CloseSearch? then [] else old(searchQuery)
      ensures searchSelection ==
        if m.SearchFound? then Some((m.start, m.end))
        else if m.SearchNotFound? || m.CloseSearch? then None else old(searchSelection)
      ensures methodMenuOpen == old(methodMenuOpen) && bodyFormatMenuOpen == old(bodyFormatMenuOpen)
        && sendButtonHovered == old(sendButtonHovered) && cancelButtonHovered == old(cancelButtonHovered)
        && selectedTab == old(selectedTab)
    {
      match m {
        case EditorFind =>
          showSearch := true;
          return RunFocusSearchAfter(10);
        case SearchQueryChanged(query) =>
          searchQuery := query;
          action := NoAction;
        case FindNext =>
          action := SearchNext(searchInputId);
        case FindPrevious =>
          action := SearchPrevious(searchInputId);
        case SubmitSearch =>
          action := SubmitSearchAction(searchInputId);
        case SearchFound(start, end) =>
          searchSelection := Some((start, end));
          action := RunQueryScrollY(start.line);
        case ScrollToMatchResponse(y) =>
          action := RunScrollTo(Overlay.MatchScrollOffset(y));
        case SearchNotFound =>
          searchSelection := None;
          action := NoAction;
        case CloseSearch =>
          showSearch := false;
          searchQuery := [];
          searchSelection := None;
          action := NoAction;
        case FocusSearch =>
          action := Focus(searchInputId);
      }
    }

    /** The buttons, tabs, menus and the other messages; the search bar stays as it is. */
    method UpdateControls(m: Message, ctx: Context) returns (action: Action)
      requires !EditsRequest(m) && !SearchMessage(m)
      modifies this
      ensures action == ControlReply(m, ctx, searchInputId)
      ensures methodMenuOpen ==
        if m.CloseMethodMenu? then false else if m.ToggleMethodMenu? then !old(methodMenuOpen) else old(methodMenuOpen)
      ensures bodyFormatMenuOpen ==
        if m.CloseBodyFormatMenu? then false
        else if m.ToggleBodyFormatMenu? then !old(bodyFormatMenuOpen) else old(bodyFormatMenuOpen)
      ensures sendButtonHovered == if m.SendButtonHovered? then m.hovered else old(sendButtonHovered)
      ensures cancelButtonHovered == if m.CancelButtonHovered? then m.hovered else old(cancelButtonHovered)
      ensures selectedTab == if m.TabSelected? then m.tab else if m.ToggleBodyFormatMenu? then BodyTab else old(selectedTab)
      ensures showSearch == old(showSearch) && searchQuery == old(searchQuery) && searchSelection == old(searchSelection)
    {
      match m {
        case ClickSendRequest =>
          action := SendRequest(ctx.now);
        case CancelRequest =>
          action := CancelRequestAction;
        case SendButtonHovered(hovered) =>
          sendButtonHovered := hovered;
          action := NoAction;
        case CancelButtonHovered(hovered) =>
          cancelButtonHovered := hovered;
          action := NoAction;
        case TabSelected(tab) =>
          selectedTab := tab;
          action := NoAction;
        case BodyChanged(a) =>
          action := EditRequestBody(a);
        case FormatRequestBody =>
          var formatted := FormattedBody(ctx.current.body, ctx.current.bodyFormat, ctx.prettyJson);
          if formatted.Some? {
            action := FormatRequestBodyAction(formatted.value);
          } else {
            action := NoAction;
          }
        case OpenEnvironmentPopup =>
          action := OpenEnvironmentPopupAction;
        case EnvironmentSelected(i) =>
          if i < ctx.environmentCount {
            action := UpdateActiveEnvironment(i);
          } else {
            action := NoAction;
          }
        case ToggleMethodMenu =>
          methodMenuOpen := !methodMenuOpen;
          action := NoAction;
        case CloseMethodMenu =>
          methodMenuOpen := false;
          action := NoAction;
        case ToggleBodyFormatMenu =>
          bodyFormatMenuOpen := !bodyFormatMenuOpen;
          selectedTab := BodyTab;
          action := NoAction;
        case CloseBodyFormatMenu =>
          bodyFormatMenuOpen := false;
          action := NoAction;
        case ScriptChanged(a) =>
          return EditRequestPostRequestScript(a);
        case DoNothing =>
          action := NoAction;
      }
    }
  }
}
