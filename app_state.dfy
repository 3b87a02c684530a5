// The part of the application state (`BeamApp` in src/main.rs) that the
// environment-deletion and rename handlers of `update` change: the
// environments with the active one, the collections, and the rename modal.

module AppState {
  import opened Wrappers
  import opened Strings
  import opened Types

  /** The active environment after deleting `index`: the deleted one falls back to the first, a later one moves down by one. */
  function RepairActive(active: Option<nat>, index: nat): (r: Option<nat>)
    ensures r.Some? <==> active.Some?
  {
    match active
    case None => None
    case Some(a) =>
      if a == index then Some(0)
      else if a > index then Some(a - 1)
      else Some(a)
  }

  /** `s` without its element at `index`. */
  function Without<T>(s: seq<T>, index: nat): (r: seq<T>)
    requires index < |s|
    ensures |r| == |s| - 1
  {
    s[..index] + s[index + 1..]
  }

  /**
   * Deleting an environment other than the active one keeps the same
   * environment active, and after any deletion from more than one the
   * active index stays in range.
   */
  lemma RepairActiveKeepsSelection<T>(s: seq<T>, index: nat, active: nat)
    requires index < |s| && active < |s| && |s| > 1
    ensures RepairActive(Some(active), index).value < |Without(s, index)|
    ensures active != index ==> Without(s, index)[RepairActive(Some(active), index).value] == s[active]
  {
  }

  /** Another request of collection `c` than the one at `r` is already called `name`. */
  predicate RequestNameTaken(collections: seq<RequestCollection>, c: nat, r: nat, name: string)
  {
    c < |collections|
    && exists i :: 0 <= i < |collections[c].requests| && i != r && collections[c].requests[i].name == name
  }

  /** Another collection than the one at `c` is already called `name`. */
  predicate FolderNameTaken(collections: seq<RequestCollection>, c: nat, name: string)
  {
    exists i :: 0 <= i < |collections| && i != c && collections[i].name == name
  }

  /** The collections with the request at (`c`, `r`) renamed. */
  function RenameRequest(collections: seq<RequestCollection>, c: nat, r: nat, name: string): seq<RequestCollection>
    requires c < |collections| && r < |collections[c].requests|
  {
    var col := collections[c];
    collections[c := col.(requests := col.requests[r := col.requests[r].(name := name)])]
  }

  /** The collections with the collection at `c` renamed. */
  function RenameFolder(collections: seq<RequestCollection>, c: nat, name: string): seq<RequestCollection>
    requires c < |collections|
  {
    collections[c := collections[c].(name := name)]
  }

  /**
   * What confirming a rename does to the collections: the trimmed input
   * becomes the target's name when it is not blank, the target exists and
   * no sibling already has that name; otherwise (`None`) nothing changes.
   */
  function RenameOutcome(collections: seq<RequestCollection>, target: RenameTarget, input: string): (r: Option<seq<RequestCollection>>)
    ensures r.Some? <==>
      |Trim(input)| > 0
      && (match target
          case Request(c, q) => c < |collections| && q < |collections[c].requests| && !RequestNameTaken(collections, c, q, Trim(input))
          case Folder(c) => c < |collections| && !FolderNameTaken(collections, c, Trim(input)))
  {
    var name := Trim(input);
    if |name| == 0 then None
    else
      match target
      case Request(c, q) =>
        if c < |collections| && q < |collections[c].requests| && !RequestNameTaken(collections, c, q, name)
        then Some(RenameRequest(collections, c, q, name)) else None
      case Folder(c) =>
        if c < |collections| && !FolderNameTaken(collections, c, name)
        then Some(RenameFolder(collections, c, name)) else None
  }

  /** No two collections share a name. */
  predicate DistinctFolderNames(collections: seq<RequestCollection>)
  {
    forall i, j :: 0 <= i < j < |collections| ==> collections[i].name != collections[j].name
  }

  /** No two requests of a collection share a name. */
  predicate DistinctRequestNames(col: RequestCollection)
  {
    forall i, j :: 0 <= i < j < |col.requests| ==> col.requests[i].name != col.requests[j].name
  }

  /** Names that are distinct before a confirmed rename are distinct after it. */
  lemma RenameKeepsNamesDistinct(collections: seq<RequestCollection>, target: RenameTarget, input: string)
    requires RenameOutcome(collections, target, input).Some?
    ensures DistinctFolderNames(collections) ==> DistinctFolderNames(RenameOutcome(collections, target, input).value)
    ensures forall k :: 0 <= k < |collections| && DistinctRequestNames(collections[k]) ==>
      DistinctRequestNames(RenameOutcome(collections, target, input).value[k])
  {
    var name := Trim(input);
    var after := RenameOutcome(collections, target, input).value;
    match target
    case Request(c, q) =>
      assert after == RenameRequest(collections, c, q, name);
      assert forall i :: 0 <= i < |after| ==> after[i].name == collections[i].name;
      forall k | 0 <= k < |collections| && DistinctRequestNames(collections[k])
        ensures DistinctRequestNames(after[k])
      {
        if k == c {
          forall i, j | 0 <= i < j < |after[k].requests|
            ensures after[k].requests[i].name != after[k].requests[j].name
          {
            if i == q {
              assert collections[c].requests[j].name != name;
            } else if j == q {
              assert collections[c].requests[i].name != name;
            }
          }
        }
      }
    case Folder(c) =>
      assert after == RenameFolder(collections, c, name);
      if DistinctFolderNames(collections) {
        forall i, j | 0 <= i < j < |after|
          ensures after[i].name != after[j].name
        {
          if i == c {
            assert collections[j].name != name;
          } else if j == c {
            assert collections[i].name != name;
          }
        }
      }
  }

  /** The application state these handlers touch; each handler updates it in place. */
  class App {
    var environments: seq<Environment>
    var activeEnvironment: Option<nat>
    var collections: seq<RequestCollection>
    var showRenameModal: bool
    var renameInput: string
    var renameTarget: Option<RenameTarget>

    /** The initial state: no environments, none active, no collections, the rename modal closed. */
    constructor ()
      ensures environments == [] && activeEnvironment == None && collections == []
      ensures !showRenameModal && renameInput == [] && renameTarget == None
    {
      environments := [];
      activeEnvironment := None;
      collections := [];
      showRenameModal := false;
      renameInput := [];
      renameTarget := None;
    }

    /** The active environment, if any, is one of the environments. */
    predicate ActiveValid()
      reads this
    {
      activeEnvironment.None? || activeEnvironment.value < |environments|
    }

    /**
     * `DeleteEnvironment(index)`: removes the environment when the index is
     * in range and it is not the only one, and repairs the active index.
     */
    method DeleteEnvironment(index: nat)
      modifies this
      ensures if index < |old(environments)| && |old(environments)| > 1 then
          environments == Without(old(environments), index)
          && activeEnvironment == RepairActive(old(activeEnvironment), index)
        else environments == old(environments) && activeEnvironment == old(activeEnvironment)
      ensures old(ActiveValid()) ==> ActiveValid()
      ensures old(activeEnvironment).Some? && old(activeEnvironment).value != index && old(ActiveValid()) ==>
        environments[activeEnvironment.value] == old(environments[activeEnvironment.value])
      ensures collections == old(collections) && showRenameModal == old(showRenameModal)
      ensures renameInput == old(renameInput) && renameTarget == old(renameTarget)
    {
      if index < |environments| && |environments| > 1 {
        var before := environments;
        environments := environments[..index] + environments[index + 1..];
        match activeEnvironment {
          case Some(active) =>
            if active < |before| {
              RepairActiveKeepsSelection(before, index, active);
            }
            if active == index {
              activeEnvironment := Some(0);
            } else if active > index {
              activeEnvironment := Some(active - 1);
            }
          case None =>
        }
      }
    }

    /** `HideRenameModal`: closes the modal and forgets the input and the target. */
    method HideRenameModal()
      modifies this
      ensures !showRenameModal && renameInput == [] && renameTarget == None
      ensures environments == old(environments) && activeEnvironment == old(activeEnvironment)
      ensures collections == old(collections)
    {
      showRenameModal := false;
      renameInput := [];
      renameTarget := None;
    }

    /**
     * `ConfirmRename`: applies the rename when it is accepted and then closes
     * the modal; a blank name, a duplicate name or a missing target leaves
     * everything, the modal included, as it was.
     */
    method ConfirmRename()
      modifies this
      ensures old(renameTarget).Some? && RenameOutcome(old(collections), old(renameTarget).value, old(renameInput)).Some? ==>
        collections == RenameOutcome(old(collections), old(renameTarget).value, old(renameInput)).value
        && !showRenameModal && renameInput == [] && renameTarget == None
      ensures !(old(renameTarget).Some? && RenameOutcome(old(collections), old(renameTarget).value, old(renameInput)).Some?) ==>
        collections == old(collections) && showRenameModal == old(showRenameModal)
        && renameInput == old(renameInput) && renameTarget == old(renameTarget)
      ensures environments == old(environments) && activeEnvironment == old(activeEnvironment)
    {
      if renameTarget.None? {
        return;
      }
      var newName := Trim(renameInput);
      if |newName| == 0 {
        return;
      }
      match renameTarget.value {
        case Request(c, r) =>
          if RequestNameTaken(collections, c, r, newName) {
            return;
          }
          if c < |collections| && r < |collections[c].requests| {
            var col := collections[c];
            var request := col.requests[r].(name := newName);
            collections := collections[c := col.(requests := col.requests[r := request])];
            HideRenameModal();
          }
        case Folder(c) =>
          if FolderNameTaken(collections, c, newName) {
            return;
          }
          if c < |collections| {
            collections := collections[c := collections[c].(name := newName)];
            HideRenameModal();
          }
      }
    }
  }
}
