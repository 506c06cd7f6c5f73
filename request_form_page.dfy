/** The request form page: like the create page but with a fourth, read-only
    `view` mode, a preview lookup by document id, and no way to delete a
    stored document, so the list of deleted ids it hands to the service is
    always empty. */
module RequestFormPage {
  import opened Wrappers
  import opened Text
  import opened Lifecycle
  import opened Documents
  import opened Slideshow
  import opened RequestService

  /** The `mode` prop; it defaults to creation. */
  datatype Mode = Create | Edit | Approval | View

  /** The `requestToEdit` prop. */
  datatype Target = Target(id: nat, title: string, description: string)

  /** Title and description refuse typing in approval and view mode. */
  predicate ReadOnly(mode: Mode) {
    mode == Approval || mode == View
  }

  /** The upload zone, the delete buttons on new files and the Save Draft
      and Submit buttons share one condition. */
  predicate ShowsSaveControls(mode: Mode) {
    mode != Approval && mode != View
  }

  predicate ShowsApprovalControls(mode: Mode) {
    mode == Approval
  }

  /** The two button groups never appear together; the form is editable
      exactly when the save group is shown; view mode shows neither. */
  lemma ModeGating(mode: Mode)
    ensures !(ShowsSaveControls(mode) && ShowsApprovalControls(mode))
    ensures ReadOnly(mode) <==> !ShowsSaveControls(mode)
    ensures mode == View ==> !ShowsSaveControls(mode) && !ShowsApprovalControls(mode)
  {
  }

  /** The heading over the form. */
  function Heading(mode: Mode, editing: bool): (h: string)
    ensures mode == Approval ==> h == "Approval View"
    ensures mode == View ==> h == "View Request"
    ensures ShowsSaveControls(mode) ==> (h == "Edit Request" <==> editing)
    ensures ShowsSaveControls(mode) && !editing ==> h == "Create New Request"
  {
    if mode == Approval then "Approval View"
    else if mode == View then "View Request"
    else if editing then "Edit Request"
    else "Create New Request"
  }

  /** The position of the first document with this id, or -1. */
  function FindIndex(docs: seq<Doc>, id: nat): (r: int)
    ensures -1 <= r < |docs|
    ensures r == -1 <==> !HasId(docs, id)
    ensures r >= 0 ==> docs[r].id == id && forall k :: 0 <= k < r ==> docs[k].id != id
  {
    if docs == [] then -1
    else if docs[0].id == id then 0
    else
      var rest := FindIndex(docs[1..], id);
      assert forall d :: d in docs <==> d == docs[0] || d in docs[1..];
      if rest == -1 then -1 else rest + 1
  }

  class FormPage {
    const mode: Mode
    const target: Option<Target>
    var title: string
    var description: string
    var comment: string
    var files: seq<FileItem>
    var existingDocs: seq<Doc>
    var deletedDocIds: seq<nat>
    var previewIndex: Option<int>
    /** The page has called `onSuccess` and `onBack`. */
    var closed: bool

    /** No handler of this page writes `deletedDocIds`. */
    ghost predicate Valid()
      reads this
    {
      deletedDocIds == []
    }

    /** Mounting the page; `fetched` is what the document fetch resolves
      to, None when it fails (the failure is only logged). */
    constructor (mode: Mode, target: Option<Target>, fetched: Option<seq<Doc>>)
      ensures Valid()
      ensures this.mode == mode && this.target == target
      ensures title == (if target.Some? then target.value.title else "")
      ensures description == (if target.Some? then target.value.description else "")
      ensures existingDocs == (if target.Some? && fetched.Some? then fetched.value else [])
      ensures comment == "" && files == [] && previewIndex.None? && !closed
    {
      this.mode := mode;
      this.target := target;
      comment := "";
      files := [];
      deletedDocIds := [];
      previewIndex := None;
      closed := false;
      if target.Some? {
        title := target.value.title;
        description := target.value.description;
        existingDocs := if fetched.Some? then fetched.value else [];
      } else {
        title := "";
        description := "";
        existingDocs := [];
      }
    }

    method EditTitle(text: string)
      requires Valid()
      modifies this
      ensures Valid()
      ensures title == (if ReadOnly(mode) then old(title) else text)
      ensures description == old(description) && comment == old(comment) && files == old(files)
      ensures existingDocs == old(existingDocs) && previewIndex == old(previewIndex) && closed == old(closed)
    {
      if !ReadOnly(mode) {
        title := text;
      }
    }

    method EditDescription(text: string)
      requires Valid()
      modifies this
      ensures Valid()
      ensures description == (if ReadOnly(mode) then old(description) else text)
      ensures title == old(title) && comment == old(comment) && files == old(files)
      ensures existingDocs == old(existingDocs) && previewIndex == old(previewIndex) && closed == old(closed)
    {
      if !ReadOnly(mode) {
        description := text;
      }
    }

    /** The comment box is only shown in approval mode. */
    method EditComment(text: string)
      requires Valid()
      modifies this
      ensures Valid()
      ensures comment == (if ShowsApprovalControls(mode) then text else old(comment))
      ensures title == old(title) && description == old(description) && files == old(files)
      ensures existingDocs == old(existingDocs) && previewIndex == old(previewIndex) && closed == old(closed)
    {
      if ShowsApprovalControls(mode) {
        comment := text;
      }
    }

    /** The picker's change event: a null list is ignored, any other is
        appended in order. */
    method HandleFileChange(picked: Option<seq<FileItem>>)
      requires Valid()
      modifies this
      ensures Valid()
      ensures files == (if ShowsSaveControls(mode) && picked.Some? then old(files) + picked.value else old(files))
      ensures title == old(title) && description == old(description) && comment == old(comment)
      ensures existingDocs == old(existingDocs) && previewIndex == old(previewIndex) && closed == old(closed)
    {
      if ShowsSaveControls(mode) && picked.Some? {
        files := files + picked.value;
      }
    }

    /** A drop appends the dropped files when there are any. */
    method HandleDrop(dropped: seq<FileItem>)
      requires Valid()
      modifies this
      ensures Valid()
      ensures files == (if ShowsSaveControls(mode) then old(files) + dropped else old(files))
      ensures title == old(title) && description == old(description) && comment == old(comment)
      ensures existingDocs == old(existingDocs) && previewIndex == old(previewIndex) && closed == old(closed)
    {
      if ShowsSaveControls(mode) && |dropped| > 0 {
        files := files + dropped;
      }
    }

    /** The delete button on grid tile `k`: only new-file tiles carry one,
        and only when the save controls are shown. */
    method PressDelete(k: int)
      requires Valid()
      modifies this
      ensures Valid()
      ensures files == (if ShowsSaveControls(mode) && |existingDocs| <= k < |existingDocs| + |old(files)|
                        then RemoveAt(old(files), k - |existingDocs|) else old(files))
      ensures title == old(title) && description == old(description) && comment == old(comment)
      ensures existingDocs == old(existingDocs) && previewIndex == old(previewIndex) && closed == old(closed)
    {
      var items := CombinedDocs(existingDocs, files);
      if ShowsSaveControls(mode) && 0 <= k < |items| {
        CombinedLayout(existingDocs, files, k);
        if items[k].Added? {
          files := RemoveAt(files, items[k].index);
        }
      }
    }

    /** A click on grid tile `k`: on an existing image, the preview opens at
        the first listed document carrying the tile's id. */
    method ClickTile(k: int)
      requires Valid()
      modifies this
      ensures Valid()
      ensures var items := CombinedDocs(existingDocs, files);
        previewIndex == (if 0 <= k < |items| && items[k].Existing? && IsImageFile(items[k].fileName)
                         then Some(FindIndex(existingDocs, items[k].id)) else old(previewIndex))
      ensures previewIndex != old(previewIndex) ==>
        && 0 <= previewIndex.value <= k < |existingDocs|
        && existingDocs[previewIndex.value].id == existingDocs[k].id
        && Modal(existingDocs, previewIndex).Showing?
      ensures title == old(title) && description == old(description) && comment == old(comment)
      ensures files == old(files) && existingDocs == old(existingDocs) && closed == old(closed)
    {
      var items := CombinedDocs(existingDocs, files);
      if 0 <= k < |items| && items[k].Existing? && IsImageFile(items[k].fileName) {
        CombinedLayout(existingDocs, files, k);
        assert HasId(existingDocs, items[k].id) by {
          assert existingDocs[k] in existingDocs;
        }
        var existingIndex := FindIndex(existingDocs, items[k].id);
        if existingIndex != -1 {
          previewIndex := Some(existingIndex);
        }
      }
    }

    method ShowPrev()
      requires Valid()
      modifies this
      ensures Valid()
      ensures Modal(old(existingDocs), old(previewIndex)).Showing? ==>
        previewIndex == Some(Prev(old(previewIndex).value, |existingDocs|)) &&
        Modal(existingDocs, previewIndex).Showing?
      ensures !Modal(old(existingDocs), old(previewIndex)).Showing? ==> previewIndex == old(previewIndex)
      ensures title == old(title) && description == old(description) && comment == old(comment)
      ensures files == old(files) && existingDocs == old(existingDocs) && closed == old(closed)
    {
      if Modal(existingDocs, previewIndex).Showing? {
        previewIndex := Some(Prev(previewIndex.value, |existingDocs|));
      }
    }

    method ShowNext()
      requires Valid()
      modifies this
      ensures Valid()
      ensures Modal(old(existingDocs), old(previewIndex)).Showing? ==>
        previewIndex == Some(Next(old(previewIndex).value, |existingDocs|)) &&
        Modal(existingDocs, previewIndex).Showing?
      ensures !Modal(old(existingDocs), old(previewIndex)).Showing? ==> previewIndex == old(previewIndex)
      ensures title == old(title) && description == old(description) && comment == old(comment)
      ensures files == old(files) && existingDocs == old(existingDocs) && closed == old(closed)
    {
      if Modal(existingDocs, previewIndex).Showing? {
        previewIndex := Some(Next(previewIndex.value, |existingDocs|));
      }
    }

    method ClosePreview()
      requires Valid()
      modifies this
      ensures Valid()
      ensures previewIndex.None? && Modal(existingDocs, previewIndex) == Closed
      ensures title == old(title) && description == old(description) && comment == old(comment)
      ensures files == old(files) && existingDocs == old(existingDocs) && closed == old(closed)
    {
      previewIndex := None;
    }

    /** `handleAction`: the service call, with an always-empty deleted list;
        on success the page closes, and unlike the create page its lists
        are left as they were. None when the buttons are not shown. */
    method HandleAction(backend: Backend, submit: bool, user: Option<Email>,
                        stamps: seq<nat>, failAt: Option<nat>)
      returns (r: Option<Outcome<Error>>)
      requires Valid() && backend.Valid()
      requires |stamps| == |files|
      modifies this, backend
      ensures Valid() && backend.Valid()
      ensures !ShowsSaveControls(mode) ==> r.None? && unchanged(this) && unchanged(backend)
      ensures ShowsSaveControls(mode) ==> r.Some?
      ensures r.Some? && user.Some? && user.value != "" && target.Some? ==>
        backend.EditSaved(old(backend.requests), old(backend.documents), old(backend.blobs),
                          old(backend.nextId), old(backend.log), user.value, target.value.id,
                          old(title), old(description), old(files), old(existingDocs), [],
                          submit, stamps, failAt, r.value)
      ensures r.Some? && user.Some? && user.value != "" && target.None? ==>
        backend.CreateSaved(old(backend.requests), old(backend.documents), old(backend.blobs),
                            old(backend.nextId), old(backend.log), user.value,
                            old(title), old(description), old(files), submit, stamps, failAt, r.value)
      ensures r.Some? && (user.None? || user.value == "") ==> r.value == Fail(NotAuthenticated)
      ensures closed == (old(closed) || (r.Some? && r.value.Pass?))
      ensures title == old(title) && description == old(description) && comment == old(comment)
      ensures files == old(files) && existingDocs == old(existingDocs) && previewIndex == old(previewIndex)
    {
      if !ShowsSaveControls(mode) {
        return None;
      }
      var saved := Save(backend, submit, user, stamps, failAt);
      r := Some(saved);
      if saved.Pass? {
        closed := true;
      }
    }

    method Save(backend: Backend, submit: bool, user: Option<Email>, stamps: seq<nat>, failAt: Option<nat>)
      returns (r: Outcome<Error>)
      requires Valid() && backend.Valid()
      requires |stamps| == |files|
      modifies backend
      ensures backend.Valid()
      ensures (user.None? || user.value == "") ==> r == Fail(NotAuthenticated) && unchanged(backend)
      ensures user.Some? && user.value != "" && target.Some? ==>
        backend.EditSaved(old(backend.requests), old(backend.documents), old(backend.blobs),
                          old(backend.nextId), old(backend.log), user.value, target.value.id,
                          title, description, files, existingDocs, [], submit, stamps, failAt, r)
      ensures user.Some? && user.value != "" && target.None? ==>
        backend.CreateSaved(old(backend.requests), old(backend.documents), old(backend.blobs),
                            old(backend.nextId), old(backend.log), user.value,
                            title, description, files, submit, stamps, failAt, r)
    {
      var requestId := if target.Some? then Some(target.value.id) else None;
      r := backend.SaveRequestWithDocuments(user, requestId, title, description, files,
                                            existingDocs, deletedDocIds, submit, stamps, failAt);
    }
  }

  /** A save from this page deletes no row and removes no blob: the
      removal step issues no call and leaves the table as it was. */
  lemma FormSaveDeletesNothing(existing: seq<Doc>, table: map<nat, Doc>)
    ensures RemovalCalls(existing, []) == []
    ensures PathsToRemove(existing, []) == []
    ensures RemoveIds(table, []) == table
  {
    assert SetOf<nat>([]) == {};
  }
}
