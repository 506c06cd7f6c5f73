/** The page that creates, edits or approves a request: its form fields, the
    page-local document lists, the preview slideshow it opens, the save
    buttons that hand everything to the service, and the four approval
    buttons that write a new status and approver. */
module CreateRequestPage {
  import opened Wrappers
  import opened Text
  import opened Lifecycle
  import opened Documents
  import opened Slideshow
  import opened RequestService

  /** The `mode` prop; it defaults to creation. */
  datatype Mode = Create | Edit | Approval

  /** The `requestToEdit` prop: the request row the page was opened on. */
  datatype Target = Target(id: nat, title: string, description: string)

  class Page {
    const mode: Mode
    const target: Option<Target>
    var title: string
    var description: string
    var comment: string
    var files: seq<FileItem>
    var existingDocs: seq<Doc>
    var deletedDocIds: seq<nat>
    var previewIndex: Option<int>
    /** The page has called `onSuccess` and `onBack`. */
    var closed: bool
    /** The documents the user deleted since the last save, in order. */
    ghost var removedDocs: seq<Doc>

    /** Every deleted id belongs to a document the user removed from the
        list, and none of them is still listed. */
    ghost predicate Valid()
      reads this
    {
      && Ids(removedDocs) == deletedDocIds
      && IdsDisjoint(existingDocs, deletedDocIds)
    }

    /** Mounting the page, with the document rows the mount effect fetches
        for the target (None when the query returns no data). */
    constructor (mode: Mode, target: Option<Target>, fetched: Option<seq<Doc>>)
      ensures Valid()
      ensures this.mode == mode && this.target == target
      ensures title == (if target.Some? then target.value.title else "")
      ensures description == (if target.Some? then target.value.description else "")
      ensures existingDocs == (if target.Some? && fetched.Some? then fetched.value else [])
      ensures comment == "" && files == [] && deletedDocIds == [] && previewIndex.None? && !closed
    {
      this.mode := mode;
      this.target := target;
      comment := "";
      files := [];
      deletedDocIds := [];
      removedDocs := [];
      previewIndex := None;
      closed := false;
      if target.Some? {
        title := target.value.title;
        description := target.value.description;
        existingDocs := if fetched.Some? then fetched.value else [];
      } else {
        title := "";
        description := "";
        existingDocs := [];
      }
    }

    /** The heading over the form. */
    function Heading(): (h: string)
      reads this
      ensures mode == Approval ==> h == "Approval View"
      ensures mode != Approval ==> (h == "Edit Request" <==> target.Some?)
      ensures mode != Approval && target.None? ==> h == "Create New Request"
    {
      if mode == Approval then "Approval View"
      else if target.Some? then "Edit Request"
      else "Create New Request"
    }

    /** Typing into the title; the field is read-only in approval mode. */
    method EditTitle(text: string)
      modifies this
      ensures title == (if mode == Approval then old(title) else text)
      ensures description == old(description) && comment == old(comment) && files == old(files)
      ensures existingDocs == old(existingDocs) && deletedDocIds == old(deletedDocIds)
      ensures previewIndex == old(previewIndex) && closed == old(closed) && removedDocs == old(removedDocs)
    {
      if mode != Approval {
        title := text;
      }
    }

    /** Typing into the description; read-only in approval mode. */
    method EditDescription(text: string)
      modifies this
      ensures description == (if mode == Approval then old(description) else text)
      ensures title == old(title) && comment == old(comment) && files == old(files)
      ensures existingDocs == old(existingDocs) && deletedDocIds == old(deletedDocIds)
      ensures previewIndex == old(previewIndex) && closed == old(closed) && removedDocs == old(removedDocs)
    {
      if mode != Approval {
        description := text;
      }
    }

    /** Typing into the comment box, which only approval mode shows. */
    method EditComment(text: string)
      modifies this
      ensures comment == (if mode == Approval then text else old(comment))
      ensures title == old(title) && description == old(description) && files == old(files)
      ensures existingDocs == old(existingDocs) && deletedDocIds == old(deletedDocIds)
      ensures previewIndex == old(previewIndex) && closed == old(closed) && removedDocs == old(removedDocs)
    {
      if mode == Approval {
        comment := text;
      }
    }

    /** The file picker's change event: a null file list is ignored, any
        other is appended after the files already chosen. The picker is not
        rendered in approval mode. */
    method HandleFileChange(picked: Option<seq<FileItem>>)
      requires Valid()
      modifies this
      ensures Valid()
      ensures files == (if mode != Approval && picked.Some? then old(files) + picked.value else old(files))
      ensures title == old(title) && description == old(description) && comment == old(comment)
      ensures existingDocs == old(existingDocs) && deletedDocIds == old(deletedDocIds)
      ensures previewIndex == old(previewIndex) && closed == old(closed) && removedDocs == old(removedDocs)
    {
      if mode == Approval || picked.None? {
        return;
      }
      files := files + picked.value;
    }

    /** A drop on the drop zone appends the dropped files when there are
        any; the zone is not rendered in approval mode. */
    method HandleDrop(dropped: seq<FileItem>)
      requires Valid()
      modifies this
      ensures Valid()
      ensures files == (if mode != Approval then old(files) + dropped else old(files))
      ensures title == old(title) && description == old(description) && comment == old(comment)
      ensures existingDocs == old(existingDocs) && deletedDocIds == old(deletedDocIds)
      ensures previewIndex == old(previewIndex) && closed == old(closed) && removedDocs == old(removedDocs)
    {
      if mode != Approval && |dropped| > 0 {
        files := files + dropped;
      }
    }

    /** `removeFile`: drops the new file at `index`. */
    method RemoveFile(index: int)
      requires Valid()
      modifies this
      ensures Valid()
      ensures files == RemoveAt(old(files), index)
      ensures title == old(title) && description == old(description) && comment == old(comment)
      ensures existingDocs == old(existingDocs) && deletedDocIds == old(deletedDocIds)
      ensures previewIndex == old(previewIndex) && closed == old(closed) && removedDocs == old(removedDocs)
    {
      files := RemoveAt(files, index);
    }

    /** The delete button on grid tile `k`, rendered outside approval mode.
        On an existing document it records the id as deleted and drops the
        document from the list; on a new file it removes that file. */
    method PressDelete(k: int)
      requires Valid()
      modifies this
      ensures Valid()
      ensures mode == Approval || !(0 <= k < |old(existingDocs)| + |old(files)|) ==>
        files == old(files) && existingDocs == old(existingDocs) && deletedDocIds == old(deletedDocIds)
        && removedDocs == old(removedDocs)
      ensures mode != Approval && 0 <= k < |old(existingDocs)| ==>
        var id := old(existingDocs)[k].id;
        && existingDocs == WithoutId(old(existingDocs), id)
        && deletedDocIds == old(deletedDocIds) + [id]
        && removedDocs == old(removedDocs) + [old(existingDocs)[k]]
        && files == old(files)
      ensures mode != Approval && |old(existingDocs)| <= k < |old(existingDocs)| + |old(files)| ==>
        && files == RemoveAt(old(files), k - |old(existingDocs)|)
        && existingDocs == old(existingDocs) && deletedDocIds == old(deletedDocIds)
        && removedDocs == old(removedDocs)
      ensures title == old(title) && description == old(description) && comment == old(comment)
      ensures previewIndex == old(previewIndex) && closed == old(closed)
    {
      if mode == Approval {
        return;
      }
      var items := CombinedDocs(existingDocs, files);
      if !(0 <= k < |items|) {
        return;
      }
      CombinedLayout(existingDocs, files, k);
      match items[k]
      case Existing(id, _, _) =>
        var doc := existingDocs[k];
        removedDocs := removedDocs + [doc];
        deletedDocIds := deletedDocIds + [id];
        existingDocs := WithoutId(existingDocs, id);
        DeleteKeepsDisjoint(old(existingDocs), old(deletedDocIds), id);
      case Added(_, index) =>
        RemoveFile(index);
    }

    /** A click on grid tile `k`: an existing image opens the slideshow at
        that tile, whose grid position is also its position in
        `existingDocs`; any other click changes nothing. */
    method ClickTile(k: int)
      modifies this
      ensures var items := CombinedDocs(old(existingDocs), old(files));
        previewIndex == (if 0 <= k < |items| && items[k].Existing? && IsImageFile(items[k].fileName)
                         then Some(k) else old(previewIndex))
      ensures previewIndex != old(previewIndex) ==>
        0 <= k < |existingDocs| && Modal(existingDocs, previewIndex) == Showing(existingDocs[k], true)
      ensures title == old(title) && description == old(description) && comment == old(comment)
      ensures files == old(files) && existingDocs == old(existingDocs) && deletedDocIds == old(deletedDocIds)
      ensures closed == old(closed) && removedDocs == old(removedDocs)
    {
      var items := CombinedDocs(existingDocs, files);
      if 0 <= k < |items| && items[k].Existing? && IsImageFile(items[k].fileName) {
        CombinedLayout(existingDocs, files, k);
        previewIndex := Some(k);
      }
    }

    /** The slideshow's Prev button, present while it shows a document. */
    method ShowPrev()
      modifies this
      ensures Modal(old(existingDocs), old(previewIndex)).Showing? ==>
        previewIndex == Some(Prev(old(previewIndex).value, |existingDocs|)) &&
        Modal(existingDocs, previewIndex).Showing?
      ensures !Modal(old(existingDocs), old(previewIndex)).Showing? ==> previewIndex == old(previewIndex)
      ensures title == old(title) && description == old(description) && comment == old(comment)
      ensures files == old(files) && existingDocs == old(existingDocs) && deletedDocIds == old(deletedDocIds)
      ensures closed == old(closed) && removedDocs == old(removedDocs)
    {
      if Modal(existingDocs, previewIndex).Showing? {
        previewIndex := Some(Prev(previewIndex.value, |existingDocs|));
      }
    }

    /** The slideshow's Next button, present while it shows a document. */
    method ShowNext()
      modifies this
      ensures Modal(old(existingDocs), old(previewIndex)).Showing? ==>
        previewIndex == Some(Next(old(previewIndex).value, |existingDocs|)) &&
        Modal(existingDocs, previewIndex).Showing?
      ensures !Modal(old(existingDocs), old(previewIndex)).Showing? ==> previewIndex == old(previewIndex)
      ensures title == old(title) && description == old(description) && comment == old(comment)
      ensures files == old(files) && existingDocs == old(existingDocs) && deletedDocIds == old(deletedDocIds)
      ensures closed == old(closed) && removedDocs == old(removedDocs)
    {
      if Modal(existingDocs, previewIndex).Showing? {
        previewIndex := Some(Next(previewIndex.value, |existingDocs|));
      }
    }

    /** The close button or a click on the backdrop. */
    method ClosePreview()
      modifies this
      ensures previewIndex.None? && Modal(existingDocs, previewIndex) == Closed
      ensures title == old(title) && description == old(description) && comment == old(comment)
      ensures files == old(files) && existingDocs == old(existingDocs) && deletedDocIds == old(deletedDocIds)
      ensures closed == old(closed) && removedDocs == old(removedDocs)
    {
      previewIndex := None;
    }

    /** `handleAction`, behind Save Draft (`submit` false) and Submit (true),
        which approval mode does not render (the result is then None).
        `user` is the signed-in user; `stamps` and `failAt` are the clock
        readings and the refused upload, as for the service. A save that
        succeeds clears the new files, the deleted ids and the preview and
        closes the page; a failed one (shown as an alert) leaves the page
        as it was. */
    method HandleAction(backend: Backend, submit: bool, user: Option<Email>,
                        stamps: seq<nat>, failAt: Option<nat>)
      returns (r: Option<Outcome<Error>>)
      requires Valid() && backend.Valid()
      requires |stamps| == |files|
      modifies this, backend
      ensures Valid() && backend.Valid()
      ensures mode == Approval ==> r.None? && unchanged(this) && unchanged(backend)
      ensures mode != Approval ==> r.Some?
      ensures mode != Approval && (user.None? || user.value == "") ==>
        r == Some(Fail(NotAuthenticated)) && unchanged(backend)
      ensures mode != Approval && user.Some? && user.value != "" && target.Some? ==>
        backend.EditSaved(old(backend.requests), old(backend.documents), old(backend.blobs),
                          old(backend.nextId), old(backend.log), user.value, target.value.id,
                          old(title), old(description), old(files), old(existingDocs),
                          old(deletedDocIds), submit, stamps, failAt, r.value)
      ensures mode != Approval && user.Some? && user.value != "" && target.None? ==>
        backend.CreateSaved(old(backend.requests), old(backend.documents), old(backend.blobs),
                            old(backend.nextId), old(backend.log), user.value,
                            old(title), old(description), old(files), submit, stamps, failAt, r.value)
      ensures r.Some? && r.value.Pass? ==>
        files == [] && deletedDocIds == [] && previewIndex.None? && closed
      ensures r.Some? && r.value.Fail? ==>
        files == old(files) && deletedDocIds == old(deletedDocIds) &&
        previewIndex == old(previewIndex) && closed == old(closed)
      ensures title == old(title) && description == old(description) && comment == old(comment)
      ensures existingDocs == old(existingDocs)
    {
      if mode == Approval {
        return None;
      }
      var saved := Save(backend, submit, user, stamps, failAt);
      r := Some(saved);
      if saved.Pass? {
        ClearAfterSave();
      }
    }

    /** The call to the service with the page's current fields. */
    method Save(backend: Backend, submit: bool, user: Option<Email>, stamps: seq<nat>, failAt: Option<nat>)
      returns (r: Outcome<Error>)
      requires backend.Valid()
      requires |stamps| == |files|
      modifies backend
      ensures backend.Valid()
      ensures (user.None? || user.value == "") ==> r == Fail(NotAuthenticated) && unchanged(backend)
      ensures user.Some? && user.value != "" && target.Some? ==>
        backend.EditSaved(old(backend.requests), old(backend.documents), old(backend.blobs),
                          old(backend.nextId), old(backend.log), user.value, target.value.id,
                          title, description, files, existingDocs, deletedDocIds, submit, stamps, failAt, r)
      ensures user.Some? && user.value != "" && target.None? ==>
        backend.CreateSaved(old(backend.requests), old(backend.documents), old(backend.blobs),
                            old(backend.nextId), old(backend.log), user.value,
                            title, description, files, submit, stamps, failAt, r)
    {
      var requestId := if target.Some? then Some(target.value.id) else None;
      r := backend.SaveRequestWithDocuments(user, requestId, title, description, files,
                                            existingDocs, deletedDocIds, submit, stamps, failAt);
    }

    /** What a successful save resets. */
    method ClearAfterSave()
      modifies this
      ensures Valid()
      ensures files == [] && deletedDocIds == [] && previewIndex.None? && closed
      ensures title == old(title) && description == old(description) && comment == old(comment)
      ensures existingDocs == old(existingDocs)
    {
      files := [];
      deletedDocIds := [];
      removedDocs := [];
      previewIndex := None;
      closed := true;
      assert Ids(removedDocs) == [];
    }

    /** `handleApprovalAction`, behind the four buttons approval mode
        renders. `entered` is what the Forward prompt returns (None when
        cancelled). The update written is the lifecycle's ApprovalUpdate;
        with none, or with no target request to address it to, nothing is
        written and the page stays open. */
    method HandleApprovalAction(backend: Backend, action: ApprovalAction, entered: Option<string>)
      returns (issued: Option<Assignment>)
      requires Valid() && backend.Valid()
      modifies this, backend
      ensures Valid() && backend.Valid()
      ensures mode != Approval ==> issued.None?
      ensures mode == Approval && target.Some? ==> issued == ApprovalUpdate(action, comment, entered)
      ensures issued.None? ==> unchanged(backend) && closed == old(closed)
      ensures issued.Some? ==>
        && target.Some? && closed
        && backend.log == old(backend.log) + [UpdateRequest(target.value.id)]
        && backend.requests == (if target.value.id in old(backend.requests)
                                then old(backend.requests)[target.value.id :=
                                       UpdatedRow(old(backend.requests)[target.value.id], issued.value)]
                                else old(backend.requests))
        && backend.documents == old(backend.documents) && backend.blobs == old(backend.blobs)
      ensures title == old(title) && description == old(description) && comment == old(comment)
      ensures files == old(files) && existingDocs == old(existingDocs) && deletedDocIds == old(deletedDocIds)
      ensures previewIndex == old(previewIndex)
    {
      if mode != Approval {
        return None;
      }
      var update := ApprovalUpdate(action, comment, entered);
      if update.None? || target.None? {
        return None;
      }
      backend.ApplyApproval(target.value.id, update.value);
      closed := true;
      issued := update;
    }
  }

  /** Deleting a listed document keeps the deleted ids and the listed ones
      apart. */
  lemma DeleteKeepsDisjoint(existing: seq<Doc>, deleted: seq<nat>, id: nat)
    requires IdsDisjoint(existing, deleted)
    ensures IdsDisjoint(WithoutId(existing, id), deleted + [id])
  {
    var kept := WithoutId(existing, id);
    forall x | x in deleted + [id]
      ensures !HasId(kept, x)
    {
      if x == id {
      } else {
        assert x in deleted;
        assert !HasId(existing, x);
      }
    }
  }

  // ---------------------------------------------------------------------
  // Deleted documents keep their blobs
  // ---------------------------------------------------------------------

  /** As written: the page drops a deleted document from `existingDocs`
      before saving, and the service looks the deleted ids up in that same
      list, so on every page state it finds no path and removes no blob. */
  lemma SavedRemovalFindsNoPath(p: Page)
    requires p.Valid()
    ensures PathsToRemove(p.existingDocs, p.deletedDocIds) == []
    ensures |p.deletedDocIds| > 0 ==> RemovalCalls(p.existingDocs, p.deletedDocIds) == [DeleteDocs(p.deletedDocIds)]
  {
    NoPathForDeleted(p.existingDocs, p.deletedDocIds);
  }

  lemma NoPathForDeleted(existing: seq<Doc>, deleted: seq<nat>)
    requires IdsDisjoint(existing, deleted)
    ensures PathsToRemove(existing, deleted) == []
  {
    var paths := PathsToRemove(existing, deleted);
    if paths != [] {
      assert paths[0] in paths;
      var d :| d in existing && d.id in deleted && d.filePath == paths[0];
      assert HasId(existing, d.id);
      assert false;
    }
  }

  /** One stored image, deleted on the page and then saved: the row delete
      is issued but no blob removal, so the image's blob stays in the
      bucket with no row pointing to it. */
  lemma DeletedImageBlobOrphaned()
    ensures var doc := Doc(1, 7, "scan.png", "7/100-scan.png");
      var existing := WithoutId([doc], doc.id);
      existing == [] && RemovalCalls(existing, [doc.id]) == [DeleteDocs([1])]
  {
    var doc := Doc(1, 7, "scan.png", "7/100-scan.png");
    assert WithoutId([doc], doc.id) == [];
  }

  /** Corrected: look the deleted ids up among the listed documents and the
      removed ones together, which finds the path of every document the
      user deleted and of nothing else. */
  function CorrectedRemovalPaths(existing: seq<Doc>, removed: seq<Doc>): (paths: seq<string>)
    ensures forall p :: p in paths ==> exists d :: d in existing + removed && d.filePath == p
  {
    PathsToRemove(existing + removed, Ids(removed))
  }

  lemma {:induction false} IdsMember(removed: seq<Doc>, d: Doc)
    requires d in removed
    ensures d.id in Ids(removed)
  {
    var k :| 0 <= k < |removed| && removed[k] == d;
    assert Ids(removed)[k] == d.id;
  }

  lemma CorrectedRemovalExact(existing: seq<Doc>, removed: seq<Doc>)
    requires IdsDisjoint(existing, Ids(removed))
    ensures forall p :: p in CorrectedRemovalPaths(existing, removed) <==>
      exists d :: d in removed && d.filePath == p
  {
    var paths := CorrectedRemovalPaths(existing, removed);
    forall p
      ensures p in paths <==> exists d :: d in removed && d.filePath == p
    {
      if p in paths {
        var d :| d in existing + removed && d.id in Ids(removed) && d.filePath == p;
        if d in existing {
          assert HasId(existing, d.id);
        }
        assert d in removed;
      }
      if exists d :: d in removed && d.filePath == p {
        var d :| d in removed && d.filePath == p;
        IdsMember(removed, d);
        assert d in existing + removed;
      }
    }
  }

  /** On every page state, the corrected lookup removes exactly the blobs
      of the documents deleted since the last save. */
  lemma CorrectedRemovalOnPage(p: Page)
    requires p.Valid()
    ensures forall path :: path in CorrectedRemovalPaths(p.existingDocs, p.removedDocs) <==>
      exists d :: d in p.removedDocs && d.filePath == path
  {
    CorrectedRemovalExact(p.existingDocs, p.removedDocs);
  }
}
