// The sidebar of collections (src/ui/collections.rs): the messages of its
// buttons and context menus, what `CollectionPanel::update` does with each
// of them to the panel's own state and which action it hands back to the
// application, and the short label of a request's method badge.
//
// Instants are whole milliseconds on a monotonic clock, passed in as `now`.

module Collections {
  import opened Wrappers
  import opened Strings
  import opened Types

  datatype Message =
    | CollectionToggled(collectionIndex: nat)
    | RequestSelected(collectionIndex: nat, requestIndex: nat)
    | ShowRenameModal(collectionIndex: nat, requestIndex: nat)
    | AddHttpRequest(collectionIndex: nat)
    | DeleteFolder(collectionIndex: nat)
    | AddFolder(collectionIndex: nat)
    | RenameFolder(collectionIndex: nat)
    | SendRequestFromMenu(collectionIndex: nat, requestIndex: nat)
    | CopyRequestAsCurl(collectionIndex: nat, requestIndex: nat)
    | RenameRequest(collectionIndex: nat, requestIndex: nat)
    | DuplicateRequest(collectionIndex: nat, requestIndex: nat)
    | DeleteRequest(collectionIndex: nat, requestIndex: nat)

  datatype Action =
    | UpdateCurrentCollection(collection: RequestCollection)
    | LoadRequestConfig(collectionIndex: nat, requestIndex: nat)
    | SaveRequestToCollection(request: RequestConfig)
    | SaveNewCollection(collection: RequestCollection)
    | SendRequestAction(request: RequestConfig)
    | DuplicateRequestAction(request: RequestConfig)
    | DeleteRequestAction(collectionIndex: nat, requestIndex: nat)
    | RenameRequestAction(collectionIndex: nat, requestIndex: nat, name: string)
    | RenameCollection(collectionIndex: nat, name: string)
    | NoAction

  /** The request at `(c, r)` exists. */
  predicate HasRequest(cs: seq<RequestCollection>, c: nat, r: nat)
  {
    c < |cs| && r < |cs[c].requests|
  }

  // ---- Double clicks ----

  /** `Instant::duration_since` in milliseconds; it saturates at zero. */
  function Elapsed(last: nat, now: nat): nat
  {
    if now >= last then now - last else 0
  }

  /** A click is a double click when it hits the target of the previous click less than 500 ms after it. */
  predicate IsDoubleClick(lastTime: Option<nat>, lastTarget: Option<(nat, nat)>, target: (nat, nat), now: nat)
  {
    lastTime.Some? && lastTarget.Some? && lastTarget.value == target && Elapsed(lastTime.value, now) < 500
  }

  // ---- What new and copied entries look like ----

  /** The request `AddHttpRequest` proposes for collection `c`: a default request placed after the last one. */
  function NewRequest(collection: RequestCollection, c: nat): (r: RequestConfig)
    ensures SameContent(r, DefaultRequest().(name := r.name, collectionIndex := c, requestIndex := |collection.requests|))
    ensures r.collectionIndex == c && r.requestIndex == |collection.requests|
    ensures r.name == "New Request " + NatToString(|collection.requests| + 1)
  {
    DefaultRequest().(name := "New Request " + NatToString(|collection.requests| + 1),
                      collectionIndex := c, requestIndex := |collection.requests|)
  }

  /** The collection `AddFolder` proposes: empty, expanded, numbered after the existing ones. */
  function NewCollection(count: nat): (c: RequestCollection)
    ensures c.name == "New Collection " + NatToString(count + 1)
    ensures c.requests == [] && c.expanded
  {
    RequestCollection("New Collection " + NatToString(count + 1), [], true)
  }

  /**
   * The copy `DuplicateRequest` proposes: a clone of the request (so with
   * fresh metadata) under the name with " (Copy)" appended.
   */
  function Duplicate(request: RequestConfig, c: nat, r: nat): (d: RequestConfig)
    ensures SameContent(d, request.(name := d.name, collectionIndex := c, requestIndex := r))
    ensures d.metadata == Some(DefaultMetadata)
    ensures d.name == request.name + " (Copy)" && d.collectionIndex == c && d.requestIndex == r
  {
    CloneRequest(request).(name := request.name + " (Copy)", collectionIndex := c, requestIndex := r)
  }

  /** Numbering by the decimal rendering tells different counts apart. */
  lemma NumberedNamesDiffer(prefix: string, a: nat, b: nat)
    requires a != b
    ensures prefix + NatToString(a) != prefix + NatToString(b)
  {
    NatToStringValue(a);
    NatToStringValue(b);
    assert (prefix + NatToString(a))[|prefix|..] == NatToString(a);
    assert (prefix + NatToString(b))[|prefix|..] == NatToString(b);
  }

  /**
   * A new request lands at the end of its collection, where its indices
   * point, and is not named like the request added before it.
   */
  lemma NewRequestAppends(collection: RequestCollection, c: nat, extra: RequestConfig)
    ensures var r := NewRequest(collection, c);
      (collection.requests + [r])[r.requestIndex] == r
      && NewRequest(collection.(requests := collection.requests + [extra]), c).name != r.name
  {
    NumberedNamesDiffer("New Request ", |collection.requests| + 1, |collection.requests| + 2);
  }

  /** A copy is never named like its original. */
  lemma DuplicateRenames(request: RequestConfig, c: nat, r: nat)
    ensures Duplicate(request, c, r).name != request.name
    ensures Duplicate(request, c, r).name[..|request.name|] == request.name
  {
    assert |Duplicate(request, c, r).name| == |request.name| + 7;
  }

  // ---- Folders ----

  /** `cs` with the `expanded` flag of collection `i` flipped. */
  function Toggled(cs: seq<RequestCollection>, i: nat): (r: seq<RequestCollection>)
    requires i < |cs|
    ensures |r| == |cs| && r[i].expanded == !cs[i].expanded
    ensures r[i].name == cs[i].name && r[i].requests == cs[i].requests
    ensures forall k | 0 <= k < |cs| && k != i :: r[k] == cs[k]
  {
    cs[i := cs[i].(expanded := !cs[i].expanded)]
  }

  /** Toggling a folder twice restores the sidebar. */
  lemma ToggleTwice(cs: seq<RequestCollection>, i: nat)
    requires i < |cs|
    ensures Toggled(Toggled(cs, i), i) == cs
  {
  }

  /** `Vec::remove`: `cs` without entry `i`. */
  function WithoutFolder(cs: seq<RequestCollection>, i: nat): (r: seq<RequestCollection>)
    requires i < |cs|
    ensures |r| == |cs| - 1
    ensures forall k | 0 <= k < i :: r[k] == cs[k]
    ensures forall k | i <= k < |r| :: r[k] == cs[k + 1]
  {
    cs[..i] + cs[i + 1..]
  }

  /** Removing a folder loses exactly that folder. */
  lemma WithoutFolderLosesOne(cs: seq<RequestCollection>, i: nat)
    requires i < |cs|
    ensures multiset(WithoutFolder(cs, i)) + multiset{cs[i]} == multiset(cs)
  {
    assert cs == cs[..i] + [cs[i]] + cs[i + 1..];
  }

  // ---- `update` ----

  /** The messages that open the rename dialog, given the sidebar and the last click. */
  predicate OpensRename(m: Message, cs: seq<RequestCollection>, lastTime: Option<nat>, lastTarget: Option<(nat, nat)>, now: nat)
  {
    match m
    case RequestSelected(c, r) =>
      HasRequest(cs, c, r) && IsDoubleClick(lastTime, lastTarget, (c, r), now)
    case RenameFolder(c) => c < |cs|
    case RenameRequest(c, r) => HasRequest(cs, c, r)
    case ShowRenameModal(c, r) => HasRequest(cs, c, r)
    case _ => false
  }

  /** What is being renamed when `m` opens the rename dialog. */
  function RenameTargetOf(m: Message): RenameTarget
    requires m.RequestSelected? || m.RenameFolder? || m.RenameRequest? || m.ShowRenameModal?
  {
    if m.RenameFolder? then Folder(m.collectionIndex) else Request(m.collectionIndex, m.requestIndex)
  }

  /** The name the rename dialog starts from: the current name of its target. */
  function RenameStart(m: Message, cs: seq<RequestCollection>, lastTime: Option<nat>, lastTarget: Option<(nat, nat)>, now: nat): string
    requires OpensRename(m, cs, lastTime, lastTarget, now)
  {
    if m.RenameFolder? then cs[m.collectionIndex].name else cs[m.collectionIndex].requests[m.requestIndex].name
  }

  /** The action `update` returns for `m`. */
  function Reply(m: Message, cs: seq<RequestCollection>, lastTime: Option<nat>, lastTarget: Option<(nat, nat)>, now: nat): (a: Action)
    ensures a.LoadRequestConfig? <==>
              m.RequestSelected? && HasRequest(cs, m.collectionIndex, m.requestIndex)
              && !IsDoubleClick(lastTime, lastTarget, (m.collectionIndex, m.requestIndex), now)
    ensures a.LoadRequestConfig? ==> a.collectionIndex == m.collectionIndex && a.requestIndex == m.requestIndex
    ensures a.UpdateCurrentCollection? <==> m.CollectionToggled? && m.collectionIndex < |cs|
    ensures a.UpdateCurrentCollection? ==>
              a.collection.expanded == !cs[m.collectionIndex].expanded && a.collection.name == cs[m.collectionIndex].name
              && |a.collection.requests| == |cs[m.collectionIndex].requests|
              && forall k | 0 <= k < |a.collection.requests| ::
                   SameContent(a.collection.requests[k], cs[m.collectionIndex].requests[k])
                   && a.collection.requests[k].metadata == Some(DefaultMetadata)
    ensures a.SaveRequestToCollection? <==> m.AddHttpRequest? && m.collectionIndex < |cs|
    ensures m.AddHttpRequest? && m.collectionIndex < |cs| ==>
              a == SaveRequestToCollection(NewRequest(cs[m.collectionIndex], m.collectionIndex))
    ensures a.SendRequestAction? <==> m.SendRequestFromMenu? && HasRequest(cs, m.collectionIndex, m.requestIndex)
    ensures a.SendRequestAction? ==>
              SameContent(a.request, cs[m.collectionIndex].requests[m.requestIndex])
              && a.request.metadata == Some(DefaultMetadata)
    ensures m.DuplicateRequest? && HasRequest(cs, m.collectionIndex, m.requestIndex) ==>
              a == DuplicateRequestAction(Duplicate(cs[m.collectionIndex].requests[m.requestIndex], m.collectionIndex, m.requestIndex))
    ensures a.DuplicateRequestAction? <==> m.DuplicateRequest? && HasRequest(cs, m.collectionIndex, m.requestIndex)
    ensures a.DeleteRequestAction? <==> m.DeleteRequest?
    ensures m.DeleteRequest? ==> a == DeleteRequestAction(m.collectionIndex, m.requestIndex)
    ensures a.SaveNewCollection? <==> m.AddFolder?
    ensures m.AddFolder? ==> a == SaveNewCollection(NewCollection(|cs|))
    ensures !a.RenameRequestAction? && !a.RenameCollection?
  {
    match m
    case CollectionToggled(c) =>
      if c < |cs| then UpdateCurrentCollection(CloneCollection(Toggled(cs, c)[c])) else NoAction
    case RequestSelected(c, r) =>
      if HasRequest(cs, c, r) && !IsDoubleClick(lastTime, lastTarget, (c, r), now) then LoadRequestConfig(c, r)
      else NoAction
    case AddHttpRequest(c) =>
      if c < |cs| then SaveRequestToCollection(NewRequest(cs[c], c)) else NoAction
    case AddFolder(_) => SaveNewCollection(NewCollection(|cs|))
    case SendRequestFromMenu(c, r) =>
      if HasRequest(cs, c, r) then SendRequestAction(CloneRequest(cs[c].requests[r])) else NoAction
    case DuplicateRequest(c, r) =>
      if HasRequest(cs, c, r) then DuplicateRequestAction(Duplicate(cs[c].requests[r], c, r)) else NoAction
    case DeleteRequest(c, r) => DeleteRequestAction(c, r)
    case _ => NoAction
  }

  /**
   * Two clicks on the same request: the second one opens the rename dialog
   * when it comes less than 500 ms after the first and loads the request
   * otherwise; a click on another request always loads it.
   */
  lemma SecondClick(cs: seq<RequestCollection>, c: nat, r: nat, first: nat, second: nat, other: (nat, nat))
    requires HasRequest(cs, c, r)
    ensures OpensRename(RequestSelected(c, r), cs, Some(first), Some((c, r)), second) <==> Elapsed(first, second) < 500
    ensures other != (c, r) ==>
              Reply(RequestSelected(c, r), cs, Some(first), Some(other), second) == LoadRequestConfig(c, r)
  {
  }

  /** The sidebar of collections; `update` changes its fields in place. */
  class Panel {
    var collections: seq<RequestCollection>
    var lastClickTime: Option<nat>
    var lastClickTarget: Option<(nat, nat)>
    var showRenameModal: bool
    var renameInput: string
    var renameTarget: Option<RenameTarget>

    /** `CollectionPanel::new`: no collections, no click yet, the rename dialog closed. */
    constructor ()
      ensures collections == [] && lastClickTime == None && lastClickTarget == None
      ensures !showRenameModal && renameInput == [] && renameTarget == None
    {
      collections := [];
      lastClickTime := None;
      lastClickTarget := None;
      showRenameModal := false;
      renameInput := [];
      renameTarget := None;
    }

    /**
     * `CollectionPanel::update` at instant `now`: returns `Reply(m, ...)`.
     * A toggle flips an existing folder, deleting removes an existing folder,
     * a click on an existing request is remembered, and the rename dialog
     * opens, with the target's current name, on a double click, on Rename
     * of an existing folder or request, and on `ShowRenameModal`. Messages
     * about missing entries change nothing.
     */
    method Update(m: Message, now: nat) returns (action: Action)
      modifies this
      ensures action == Reply(m, old(collections), old(lastClickTime), old(lastClickTarget), now)
      ensures collections ==
        if m.CollectionToggled? && m.collectionIndex < |old(collections)| then Toggled(old(collections), m.collectionIndex)
        else if m.DeleteFolder? && m.collectionIndex < |old(collections)| then WithoutFolder(old(collections), m.collectionIndex)
        else old(collections)
      ensures m.RequestSelected? && HasRequest(old(collections), m.collectionIndex, m.requestIndex) ==>
                lastClickTime == Some(now) && lastClickTarget == Some((m.collectionIndex, m.requestIndex))
      ensures !(m.RequestSelected? && HasRequest(old(collections), m.collectionIndex, m.requestIndex)) ==>
                lastClickTime == old(lastClickTime) && lastClickTarget == old(lastClickTarget)
      ensures OpensRename(m, old(collections), old(lastClickTime), old(lastClickTarget), now) ==>
                showRenameModal && renameTarget == Some(RenameTargetOf(m))
                && renameInput == RenameStart(m, old(collections), old(lastClickTime), old(lastClickTarget), now)
      ensures !OpensRename(m, old(collections), old(lastClickTime), old(lastClickTarget), now) ==>
                showRenameModal == old(showRenameModal) && renameTarget == old(renameTarget)
                && renameInput == old(renameInput)
    {
      action := Reply(m, collections, lastClickTime, lastClickTarget, now);
      match m {
        case CollectionToggled(c) =>
          if c < |collections| {
            collections := Toggled(collections, c);
          }
        case RequestSelected(c, r) =>
          if HasRequest(collections, c, r) {
            var double := IsDoubleClick(lastClickTime, lastClickTarget, (c, r), now);
            lastClickTime := Some(now);
            lastClickTarget := Some((c, r));
            if double {
              showRenameModal := true;
              renameTarget := Some(Request(c, r));
              renameInput := collections[c].requests[r].name;
            }
          }
        case DeleteFolder(c) =>
          if c < |collections| {
            collections := WithoutFolder(collections, c);
          }
        case RenameFolder(c) =>
          if c < |collections| {
            showRenameModal := true;
            renameInput := collections[c].name;
            renameTarget := Some(Folder(c));
          }
        case RenameRequest(c, r) =>
          OpenRenameRequest(c, r);
        case ShowRenameModal(c, r) =>
          OpenRenameRequest(c, r);
        case _ =>
      }
    }

    /** Opens the rename dialog on an existing request; a missing one changes nothing. */
    method OpenRenameRequest(c: nat, r: nat)
      modifies this
      ensures collections == old(collections) && lastClickTime == old(lastClickTime) && lastClickTarget == old(lastClickTarget)
      ensures HasRequest(collections, c, r) ==>
                showRenameModal && renameInput == collections[c].requests[r].name && renameTarget == Some(Request(c, r))
      ensures !HasRequest(collections, c, r) ==>
                showRenameModal == old(showRenameModal) && renameInput == old(renameInput) && renameTarget == old(renameTarget)
    {
      if HasRequest(collections, c, r) {
        showRenameModal := true;
        renameInput := collections[c].requests[r].name;
        renameTarget := Some(Request(c, r));
      }
    }
  }

  // ---- The method badge ----

  /** The label of `method_badge`: at most four letters, with fixed short forms for the long names. */
  function MethodBadge(m: HttpMethod): string
  {
    match m
    case DELETE => "DELE"
    case OPTIONS => "OPTN"
    case PATCH => "PACH"
    case _ => Truncate(MethodName(m), 4)
  }

  /** The first `n` characters of `s`, or `s` when it is not longer. */
  function Truncate(s: string, n: nat): (r: string)
    ensures |r| <= n && |r| <= |s| && r == s[..|r|]
    ensures |s| <= n ==> r == s
  {
    if |s| > n then s[..n] else s
  }

  /**
   * Badges fit in four upper-case letters, a short method name is its own
   * badge, and different methods get different badges.
   */
  lemma MethodBadgeProperties(a: HttpMethod, b: HttpMethod)
    ensures 0 < |MethodBadge(a)| <= 4 && IsUpperName(MethodBadge(a))
    ensures |MethodName(a)| <= 4 ==> MethodBadge(a) == MethodName(a)
    ensures MethodBadge(a) == MethodBadge(b) <==> a == b
  {
    MethodNameProperties(a, b);
    if a != b {
      assert MethodBadge(a)[0] != MethodBadge(b)[0] || MethodBadge(a)[1] != MethodBadge(b)[1];
    }
  }
}
