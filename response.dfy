// The response viewer panel (src/ui/response.rs): the messages its widgets
// send, what `ResponsePanel::update` does with each of them to the panel's
// own state and which action it hands back to the application.
//
// The body is shown in an undoable editor; its messages arrive here as the
// editor command they carry. Widget ids are numbers, the received response
// and the JSON library's pretty-printing of its body are parameters, and a
// task the panel asks the application to run is named by what it does.

module ResponsePanel {
  import opened Wrappers
  import opened Types
  import opened ResponseContent
  import Overlay

  /** The kinds of `text_editor::Action`: everything but `Edit` only moves, selects or scrolls. */
  datatype EditorCommand = Move | Select | SelectWord | SelectLine | SelectAll | Click | Drag | Scroll | Edit

  /** The messages of the undoable body editor. */
  datatype EditorMessage = Command(command: EditorCommand) | Undo | Redo | Find

  datatype Message =
    | EditorMessage(editor: EditorMessage)
    | TabSelected(tab: ResponseTab)
    | FormatResponseBody
    | SearchQueryChanged(query: string)
    | FindNext
    | FindPrevious
    | SubmitSearch
    | CloseSearch
    | OpenSearch
    | SearchFound(start: Overlay.Position, end: Overlay.Position)
    | SearchNotFound
    | FocusSearch
    | DoNothing
    | ScrollToMatchResponse(y: real)

  /**
   * What the panel hands back. `RunOpenSearch`, `RunQueryScrollY` and
   * `RunScrollTo` stand for the tasks the panel asks the application to
   * run: one that comes back as `OpenSearch`, one that asks the editor for
   * the height of a line, and one that scrolls the body to an offset.
   */
  datatype Action =
    | ResponseBodyAction(command: EditorCommand)
    | FormatResponseBodyAction(formatted: string)
    | SearchNext(id: nat)
    | SearchPrevious(id: nat)
    | SubmitSearchAction(id: nat)
    | Focus(id: nat)
    | RunOpenSearch
    | RunQueryScrollY(line: nat)
    | RunScrollTo(offsetY: real)
    | NoAction

  /** The action `update` returns for `m`, given the current response and the search input's id. */
  function Reply(m: Message, response: Option<ResponseData>, prettyJson: Option<string>, searchInputId: nat): (a: Action)
    ensures a.ResponseBodyAction? <==> m.EditorMessage? && m.editor.Command? && !m.editor.command.Edit?
    ensures a.ResponseBodyAction? ==> a.command == m.editor.command
    ensures a == RunOpenSearch <==> m == EditorMessage(Find)
    ensures a.FormatResponseBodyAction? ==>
              m == FormatResponseBody && FormattedResponse(response, prettyJson) == Some(a.formatted)
    ensures m == FormatResponseBody && FormattedResponse(response, prettyJson).Some? ==> a.FormatResponseBodyAction?
    ensures a.Focus? <==> m == OpenSearch || m == FocusSearch
    ensures (a.Focus? || a.SearchNext? || a.SearchPrevious? || a.SubmitSearchAction?) ==> a.id == searchInputId
  {
    match m
    case EditorMessage(editor) =>
      (match editor
       case Command(command) => if command.Edit? then NoAction else ResponseBodyAction(command)
       case Find => RunOpenSearch
       case _ => NoAction)
    case FormatResponseBody =>
      (match FormattedResponse(response, prettyJson)
       case Some(formatted) => FormatResponseBodyAction(formatted)
       case None => NoAction)
    case FindNext => SearchNext(searchInputId)
    case FindPrevious => SearchPrevious(searchInputId)
    case SubmitSearch => SubmitSearchAction(searchInputId)
    case SearchFound(start, _) => RunQueryScrollY(start.line)
    case ScrollToMatchResponse(y) => RunScrollTo(Overlay.MatchScrollOffset(y))
    case OpenSearch => Focus(searchInputId)
    case FocusSearch => Focus(searchInputId)
    case _ => NoAction
  }

  /** The body is read-only: no message yields an editor command that edits it. */
  lemma BodyStaysReadOnly(m: Message, response: Option<ResponseData>, prettyJson: Option<string>, id: nat)
    ensures Reply(m, response, prettyJson, id).ResponseBodyAction? ==> !Reply(m, response, prettyJson, id).command.Edit?
  {
  }

  /** A search match is scrolled to so that it sits in the middle of the 400-pixel viewport, never above the top. */
  lemma ScrollCentresMatch(y: real, response: Option<ResponseData>, prettyJson: Option<string>, id: nat)
    ensures var a := Reply(ScrollToMatchResponse(y), response, prettyJson, id);
      a.RunScrollTo? && a.offsetY >= 0.0 && (y >= 200.0 ==> a.offsetY == y - 200.0)
  {
  }

  /** A response panel; `update` changes its fields in place. */
  class Panel {
    var selectedTab: ResponseTab
    var showSearch: bool
    var searchQuery: string
    const searchInputId: nat
    var searchSelection: Option<(Overlay.Position, Overlay.Position)>

    /** `ResponsePanel::new`: the Body tab, no search; `searchInputId` is the fresh unique id. */
    constructor (searchInputId: nat)
      ensures selectedTab == ResponseBodyTab && !showSearch && searchQuery == [] && searchSelection == None
      ensures this.searchInputId == searchInputId
    {
      selectedTab := ResponseBodyTab;
      showSearch := false;
      searchQuery := [];
      this.searchInputId := searchInputId;
      searchSelection := None;
    }

    /**
     * `ResponsePanel::update`: returns `Reply(m, ...)` and changes the
     * panel as follows. A tab is shown when selected, the search bar opens
     * on `OpenSearch`, a found match is remembered and a miss forgets it,
     * and closing the search bar also clears the query and the match.
     */
    method Update(m: Message, response: Option<ResponseData>, prettyJson: Option<string>) returns (action: Action)
      modifies this
      ensures action == Reply(m, response, prettyJson, searchInputId)
      ensures selectedTab == if m.TabSelected? then m.tab else old(selectedTab)
      ensures showSearch == if m.OpenSearch? then true else if m.CloseSearch? then false else old(showSearch)
      ensures searchQuery == if m.SearchQueryChanged? then m.query else if m.CloseSearch? then [] else old(searchQuery)
      ensures searchSelection ==
        if m.SearchFound? then Some((m.start, m.end))
        else if m.SearchNotFound? || m.CloseSearch? then None else old(searchSelection)
    {
      match m {
        case EditorMessage(editor) =>
          match editor {
            case Command(command) =>
              if command.Edit? {
                action := NoAction;
              } else {
                action := ResponseBodyAction(command);
              }
            case Find =>
              action := RunOpenSearch;
            case _ =>
              action := NoAction;
          }
        case TabSelected(tab) =>
          selectedTab := tab;
          action := NoAction;
        case FormatResponseBody =>
          var formatted := FormattedResponse(response, prettyJson);
          if formatted.Some? {
            action := FormatResponseBodyAction(formatted.value);
          } else {
            action := NoAction;
          }
        case SearchQueryChanged(query) =>
          searchQuery := query;
          action := NoAction;
        case FindNext =>
          action := SearchNext(searchInputId);
        case FindPrevious =>
          action := SearchPrevious(searchInputId);
        case SubmitSearch =>
          action := SubmitSearchAction(searchInputId);
        case SearchFound(start, end) =>
          searchSelection := Some((start, end));
          action := RunQueryScrollY(start.line);
        case ScrollToMatchResponse(y) =>
          action := RunScrollTo(Overlay.MatchScrollOffset(y));
        case SearchNotFound =>
          searchSelection := None;
          action := NoAction;
        case CloseSearch =>
          showSearch := false;
          searchQuery := [];
          searchSelection := None;
          action := NoAction;
        case OpenSearch =>
          showSearch := true;
          action := Focus(searchInputId);
        case FocusSearch =>
          action := Focus(searchInputId);
        case DoNothing =>
          action := NoAction;
      }
    }
  }
}
