# Request approval workflow — a Dafny model

This project models the core of a small request-approval web application.
An employee drafts a request, attaches documents and submits it to their
manager. The approver approves it, rejects it, rejects it for editing, or
forwards it to another approver. The model covers five source files:

- the request service (`src/services/requestService.ts`): creating a
  request, uploading its documents to the blob bucket, and the save that
  either edits a request and reconciles its documents, or creates one;
- the create/edit/approve page (`src/components/CreateRequestPage.tsx`);
- the request form page (`src/components/RequestFormPage.tsx`);
- the image slideshow (`src/components/ImageSlideshowModal.tsx`);
- the request list (`src/components/RequestsTable.tsx`).

Modules, one per concern:

| module | file | what it holds |
|---|---|---|
| `Wrappers` | `wrappers.dfy` | `Option`, `Result`, `Outcome` |
| `Text` | `text.dfy` | the whitespace class, file-name sanitisation, decimal rendering, `trim`, case-insensitive suffixes |
| `Lifecycle` | `lifecycle.dfy` | `Status`, the status/approver each operation writes, the approval table, a replay of a request's history |
| `Documents` | `documents.dfy` | document rows, picked files, the document grid and the page-local list operations |
| `Slideshow` | `slideshow.dfy` | `isImageFile`, Prev/Next wrap-around, what the modal shows |
| `RequestService` | `request_service.dfy` | class `Backend`: the `employees`, `requests` and `documents` tables, the blob bucket, and a ghost log of the calls the service issues |
| `RequestsTable` | `requests_table.dfy` | edit permission and the rendered rows |
| `CreateRequestPage` | `create_request_page.dfy` | class `Page` |
| `RequestFormPage` | `request_form_page.dfy` | class `FormPage` |

Modelling choices:

- The service's writes are methods of `Backend`. The tables are `map`
  fields, the bucket is a `set<string>` of paths, and ids come from a
  counter `nextId`.
- A ghost `log` of `Call`s lets contracts state the order of calls, and
  which calls are not made.
- `Date.now()` becomes one clock reading per file (`stamps`). The keys
  depend on nothing else, so the model derives every file's key and row
  before the write loop rather than inside it. The loop collects the
  paths the bucket accepts, and the upload adds them to the bucket once the
  loop ends; nothing else runs in between, so the final bucket is the same.
- A refused blob write becomes the oracle `failAt`: the index of the file
  whose write is refused.
- The signed-in user becomes a parameter.
- Each page is a class whose fields are its React state. Every handler is a
  method that updates those fields.
- A handler whose control the page does not render in the current mode
  changes nothing.

In several places the code does something other than what a reader of the
workflow would expect, and the model follows the code:

- Reject-with-edit clears the approver instead of handing the request back
  to its creator (`Lifecycle.RejectWithEditClearsApprover`).
- Forward writes whatever email the approver types. It does not look up
  the approver's manager.
- Resubmitting an edit never fails for a user without a manager. It
  produces a pending request with no approver
  (`Lifecycle.ResubmitWithoutManager`).
- No code checks who may act on a request, and none appends to an audit
  trail.
- `RequestFormPage` passes the current user's email to the save, but the
  service ignores it and uses the signed-in user.

## Model

| member | source | states |
|---|---|---|
| Text.CollapseWhitespace | src/services/requestService.ts:66 | the result holds no whitespace and is no longer than the input; its content is fixed by the lemmas below |
| Text.SkipSpacesAppend | src/services/requestService.ts:66 | skipping a whitespace run stops inside a prefix that is not all whitespace |
| Text.SkipSpacesRun | src/services/requestService.ts:66 | skipping a whitespace run stops exactly at the first non-space character after it |
| Text.CollapseAppend | src/services/requestService.ts:66 | the replacement works piecewise: a prefix that ends in a non-space character is replaced on its own |
| Text.CollapseSolidChar | src/services/requestService.ts:66 | a non-space character is kept as it is |
| Text.CollapseRunStart | src/services/requestService.ts:66 | a leading whitespace run, however long, becomes one underscore |
| Text.CollapseRun | src/services/requestService.ts:66 | a whitespace run between non-space text becomes exactly one underscore, with the text on both sides replaced on its own |
| Text.StripUnsafe | src/services/requestService.ts:67 | the result is all safe characters and no longer than the input |
| Text.StripUnsafeAppend | src/services/requestService.ts:67 | stripping works piecewise, so the kept characters stay in input order |
| Text.StripUnsafeChar | src/services/requestService.ts:67 | one character is kept exactly when it is in `[A-Za-z0-9._-]` |
| Text.SafeName | src/services/requestService.ts:65-67 | the sanitised name is made only of safe characters and is no longer than the original |
| Text.SafeNameFixedPoint | src/services/requestService.ts:65-67 | sanitising leaves a name unchanged exactly when it is already all safe characters |
| Text.SafeNameIdempotent | src/services/requestService.ts:65-67 | sanitising twice equals sanitising once |
| Text.CollapseKeepsSpaceFree | src/services/requestService.ts:66 | a name without whitespace passes the first replacement unchanged |
| Text.StripKeepsSafe | src/services/requestService.ts:67 | an all-safe name passes the second replacement unchanged |
| Text.Decimal | src/services/requestService.ts:69 | a number is interpolated into the key as a non-empty string of digits |
| Text.DecimalRoundTrip | src/services/requestService.ts:69 | reading the digits back gives the number |
| Text.DecimalInjective | src/services/requestService.ts:69 | different numbers render differently |
| Text.Trim | src/components/CreateRequestPage.tsx:81 | `trim()` never lengthens, and its result neither starts nor ends with whitespace |
| Text.TrimEmptyIffAllSpace | src/components/CreateRequestPage.tsx:81 | `comment.trim()` is empty exactly when the comment is whitespace only, the empty comment included |
| Lifecycle.ParseStatus | src/components/RequestsTable.tsx:51-53 | a stored status string reads back only as the status of that name; any other string is refused |
| Lifecycle.ParseStatusName | src/components/RequestsTable.tsx:51-53 | every status name reads back as its status |
| Lifecycle.Manager | src/services/requestService.ts:28-31 | the manager is the employee's `reports_to` exactly when it is present and non-empty |
| Lifecycle.CreateAssignment | src/services/requestService.ts:17-33 | a draft gets DRAFT and no approver; a submit by an unknown user fails on the lookup; a submit without a manager fails with "No approver configured"; otherwise PENDING with the manager as approver; an approver is set exactly on a pending request |
| Lifecycle.DraftIgnoresDirectory | src/services/requestService.ts:17-20 | a draft's status and approver do not depend on the employee directory |
| Lifecycle.EditAssignment | src/services/requestService.ts:111-123 | an edit is PENDING exactly when submitted, with the manager or null as approver, and never fails |
| Lifecycle.EditAgreesWithCreate | src/services/requestService.ts:17-33 | the edit branch writes what creation writes whenever creation succeeds; where creation fails, a resubmit yields PENDING with no approver |
| Lifecycle.IsBlank | src/components/CreateRequestPage.tsx:81-84 | a comment is blank exactly when it is whitespace only, the empty comment included |
| Lifecycle.ApprovalUpdate | src/components/CreateRequestPage.tsx:81-111 | a whitespace-only comment issues no update; with a real comment Approve writes APPROVED, Reject writes REJECTED and Reject-with-edit writes REJECTED_WITH_EDIT, each with a null approver; Forward writes PENDING and issues an update exactly when the prompt returns a non-empty email, and that email becomes the approver; an approver is set exactly on PENDING |
| Lifecycle.RejectWithEditClearsApprover | src/components/CreateRequestPage.tsx:96-100 | with a real comment, reject-with-edit writes REJECTED_WITH_EDIT and a null approver |
| Lifecycle.NewRow | src/services/requestService.ts:35-45 | the inserted row's creator is the caller, and a routed assignment gives a routed row |
| Lifecycle.EditedRow | src/services/requestService.ts:125-134 | the edit update keeps the creator and keeps the row routed |
| Lifecycle.UpdatedRow | src/components/CreateRequestPage.tsx:113-116 | the approval update keeps creator, title and description and keeps the row routed |
| Lifecycle.Step | src/services/requestService.ts:35-45 | an existing row stays and keeps its creator; a row appears only through a creation, with the caller as creator; a routed row stays routed |
| Lifecycle.Replay | src/services/requestService.ts:35-45 | no event gives no row; once the row exists it stays; a row first appears at a creation |
| Lifecycle.ReplayKeepsRouted | src/services/requestService.ts:17-33 | after any sequence of creations, saves and approval actions, a request with an approver is pending |
| Lifecycle.ReplayKeepsCreator | src/services/requestService.ts:41 | once a request exists, no later operation changes its creator |
| Lifecycle.ResubmitWithoutManager | src/services/requestService.ts:121-122 | a user without a manager who resubmits gets a pending request with no approver |
| Documents.CombinedDocs | src/components/CreateRequestPage.tsx:151-163 | the grid is the existing documents in order, then each new file with its position; its length is the sum |
| Documents.CombinedLayout | src/components/RequestFormPage.tsx:132-144 | a tile is an existing document exactly in the first positions, where its grid position is its position in `existingDocs`; a new-file tile's index points at that file |
| Documents.RemoveAt | src/components/CreateRequestPage.tsx:66-68 | removing a position drops exactly that element and keeps the rest in order; a position outside the list changes nothing |
| Documents.RemoveAtMultiset | src/components/RequestFormPage.tsx:78-80 | removal loses exactly the removed file |
| Documents.RemoveLastAppended | src/components/CreateRequestPage.tsx:54-68 | removing a file just appended gives back the previous list |
| Documents.WithoutId | src/components/CreateRequestPage.tsx:263-267 | keeps exactly the documents whose id differs; a list without the id is returned unchanged |
| Documents.WithoutIdAppend | src/components/CreateRequestPage.tsx:263-267 | the filter works piecewise, so the kept documents stay in order |
| Documents.WithoutIdAt | src/components/CreateRequestPage.tsx:263-267 | when the id occurs once, the filter removes exactly that position and keeps the rest in order |
| Slideshow.SuffixDot | src/components/ImageSlideshowModal.tsx:24-26 | a name ending, case-insensitively, with a dot and a dot-free extension has its last dot right before that extension |
| Slideshow.SuffixLower | src/components/ImageSlideshowModal.tsx:24-26 | the text after that dot lower-cases to the extension |
| Slideshow.EndsWithGivesExtension | src/components/ImageSlideshowModal.tsx:24-26 | a name that ends, case-insensitively, with a dot and an extension has that extension after its last dot |
| Slideshow.ExtensionGivesEndsWith | src/components/ImageSlideshowModal.tsx:24-26 | conversely, a name whose lower-cased text after the last dot is the extension ends with it |
| Slideshow.EndsWithDotExtension | src/components/ImageSlideshowModal.tsx:24-26 | both directions together |
| Slideshow.IsImageFile | src/components/ImageSlideshowModal.tsx:24-26 | a name is an image exactly when its lower-cased extension is jpg, jpeg, png, gif or webp |
| Slideshow.Prev | src/components/ImageSlideshowModal.tsx:64-69 | Prev stays in range and moves back, except from 0 |
| Slideshow.Next | src/components/ImageSlideshowModal.tsx:77-82 | Next stays in range and moves forward, except from the last position |
| Slideshow.PrevNextInverse | src/components/ImageSlideshowModal.tsx:64-82 | Prev and Next undo each other on every valid position |
| Slideshow.AdvanceCompose | src/components/ImageSlideshowModal.tsx:77-82 | a + b presses of Next are a presses followed by b presses |
| Slideshow.AdvanceStraight | src/components/ImageSlideshowModal.tsx:77-82 | Next presses that do not reach the end move straight ahead |
| Slideshow.AdvanceFullCycle | src/components/ImageSlideshowModal.tsx:77-82 | as many Next presses as documents return to the start |
| Slideshow.Modal | src/components/ImageSlideshowModal.tsx:14-30 | a null index renders nothing; an index in range shows that document, as an image exactly when its name is an image name |
| RequestService.StorageKey | src/services/requestService.ts:69 | every key starts with the request id and a slash |
| RequestService.SplitStorageKey | src/services/requestService.ts:69 | a key splits back into the request id, the stamp and the sanitised name |
| RequestService.StorageKeyInjective | src/services/requestService.ts:69 | two keys coincide only when request, stamp and sanitised name all agree |
| RequestService.UploadPlan | src/services/requestService.ts:64-82 | one row per file, in input order, named with the file's original name, its path under the request's folder |
| RequestService.PlanKeys | src/services/requestService.ts:65-69 | each planned path carries the request id, that file's stamp and that file's sanitised name |
| RequestService.InsertRowsContents | src/services/requestService.ts:84-86 | the batch insert keeps every old row and adds exactly one fresh row per planned upload with its name and path |
| RequestService.InsertRowsKeepsIds | src/services/requestService.ts:84-86 | after the insert every row is filed under its own id, below the next fresh id |
| RequestService.PathsToRemove | src/services/requestService.ts:138-145 | a path is removed exactly when it belongs to a listed document whose id is deleted |
| RequestService.RemoveIds | src/services/requestService.ts:152-155 | the table loses exactly the deleted ids and keeps every other row as it was |
| RequestService.UploadCallsShape | src/services/requestService.ts:71-88 | a refused write means only blob writes were issued; otherwise one insert carrying every row follows all writes |
| RequestService.EditCallOrder | src/services/requestService.ts:136-161 | in an edit every removal call precedes every upload call, no blob removal is issued with no paths, and the row delete is issued exactly when some id was deleted |
| RequestService.Backend.CreateRequest | src/services/requestService.ts:6-51 | succeeds exactly when the assignment does, inserting one fresh row with the caller as creator; on failure nothing is inserted; the directory read happens only on submit |
| RequestService.Backend.UploadDocuments | src/services/requestService.ts:56-89 | fails exactly when a write is refused, reporting that path; the bucket gains the paths written before the failure; rows are inserted, one per file in order, only when every write succeeded |
| RequestService.Backend.UploadRows | src/services/requestService.ts:60-88 | no rows means no call; otherwise fails exactly when a write is refused, reporting its path; the bucket gains the accepted paths; the batch insert happens only when no write was refused |
| RequestService.Backend.WriteBlobs | src/services/requestService.ts:64-82 | one blob write per planned row in order, stopping at the refused one, whose path is returned; the paths accepted are exactly those written before the refusal, and the calls issued are exactly those writes |
| RequestService.Backend.InsertDocuments | src/services/requestService.ts:84-86 | the documents table gains one fresh row per planned upload, in order, and the next id moves past them |
| RequestService.Backend.UpdateEditedRow | src/services/requestService.ts:111-134 | the edited row gets the new title, description and edit assignment; a missing row is left alone |
| RequestService.Backend.DeleteDocuments | src/services/requestService.ts:136-156 | the bucket loses exactly the paths to remove, the table loses the deleted ids, and the calls are the removal calls |
| RequestService.Backend.ApplyApproval | src/components/CreateRequestPage.tsx:113-116 | only the target row's status and approver change |
| RequestService.Backend.UploadFiles | src/services/requestService.ts:158-160 | an empty file list uploads nothing; otherwise as the upload |
| RequestService.Backend.SaveEdit | src/services/requestService.ts:110-162 | row update, then removal, then upload, with the final tables, bucket and call log stated from the state before |
| RequestService.Backend.SaveNew | src/services/requestService.ts:163-174 | creation, then upload under the new id only when creation succeeded |
| RequestService.Backend.SaveRequestWithDocuments | src/services/requestService.ts:94-174 | no signed-in email fails with "User not authenticated" and changes nothing; otherwise the edit or create branch |
| RequestsTable.CanEdit | src/components/RequestsTable.tsx:51-53 | a status string is editable exactly when it is the name of DRAFT or of REJECTED_WITH_EDIT |
| RequestsTable.CanEditByStatus | src/components/RequestsTable.tsx:51-53 | a status string is editable exactly when it names DRAFT or REJECTED_WITH_EDIT; an unknown string is never editable |
| RequestsTable.CanEditStatusName | src/components/RequestsTable.tsx:51-53 | of the five statuses, exactly Draft and RejectedWithEdit are editable |
| RequestsTable.Cell | src/components/RequestsTable.tsx:65-69 | a null or empty value is shown as "-", any other as itself |
| RequestsTable.RenderRow | src/components/RequestsTable.tsx:50-141 | a row never shows both buttons, and with both handlers it shows exactly one; an edit button only for a DRAFT or REJECTED_WITH_EDIT status; the origin and approver cells show the creator and approver as `Cell` renders them |
| RequestsTable.Render | src/components/RequestsTable.tsx:22-24 | a null or empty list renders "No requests found."; otherwise one row per request in order |
| RequestsTable.RenderedActions | src/components/RequestsTable.tsx:80-105 | edit appears exactly for editable statuses with an edit handler, view exactly for the others with a view handler |
| CreateRequestPage.Page.constructor | src/components/CreateRequestPage.tsx:22-49 | empty lists and no preview; title, description and documents from the request being edited |
| CreateRequestPage.Page.Heading | src/components/CreateRequestPage.tsx:168-174 | "Approval View" in approval mode, otherwise "Edit Request" exactly when a request is being edited, and "Create New Request" when none is |
| CreateRequestPage.Page.EditTitle | src/components/CreateRequestPage.tsx:180-185 | typing changes the title except in approval mode |
| CreateRequestPage.Page.EditDescription | src/components/CreateRequestPage.tsx:193-198 | typing changes the description except in approval mode |
| CreateRequestPage.Page.EditComment | src/components/CreateRequestPage.tsx:309-321 | the comment box exists only in approval mode |
| CreateRequestPage.Page.HandleFileChange | src/components/CreateRequestPage.tsx:54-57 | a null selection is ignored; picked files are appended after the current ones |
| CreateRequestPage.Page.HandleDrop | src/components/CreateRequestPage.tsx:59-64 | dropped files are appended after the current ones |
| CreateRequestPage.Page.RemoveFile | src/components/CreateRequestPage.tsx:66-68 | the file at the index is removed, nothing else changes |
| CreateRequestPage.Page.PressDelete | src/components/CreateRequestPage.tsx:255-300 | on an existing tile the id is appended to the deleted ids and the document leaves the list; on a new tile that file is removed and the deleted ids stay as they were; the deleted ids and the listed documents stay apart |
| CreateRequestPage.Page.ClickTile | src/components/CreateRequestPage.tsx:240-247 | an existing image opens the slideshow at its grid position, which is a valid position in `existingDocs` showing that document |
| CreateRequestPage.Page.ShowPrev | src/components/CreateRequestPage.tsx:384-388 | the open slideshow moves to Prev and keeps showing a document |
| CreateRequestPage.Page.ShowNext | src/components/CreateRequestPage.tsx:384-388 | the open slideshow moves to Next and keeps showing a document |
| CreateRequestPage.Page.ClosePreview | src/components/CreateRequestPage.tsx:384-388 | closing hides the slideshow |
| CreateRequestPage.Page.HandleAction | src/components/CreateRequestPage.tsx:122-149 | outside approval mode saves through the service; success empties the new files and deleted ids, clears the preview and closes the page; failure leaves the page as it was |
| CreateRequestPage.Page.Save | src/components/CreateRequestPage.tsx:126-135 | the service receives the page's fields, with the target's id when editing |
| CreateRequestPage.Page.ClearAfterSave | src/components/CreateRequestPage.tsx:137-142 | files, deleted ids and preview are reset |
| CreateRequestPage.Page.HandleApprovalAction | src/components/CreateRequestPage.tsx:74-120 | in approval mode writes ApprovalUpdate to the target row and closes the page; a blank comment or cancelled forward writes nothing |
| CreateRequestPage.DeleteKeepsDisjoint | src/components/CreateRequestPage.tsx:259-267 | after a delete its id is in the deleted list and in no listed document |
| CreateRequestPage.SavedRemovalFindsNoPath | src/services/requestService.ts:138-150 | on every page state the service's path filter finds nothing, so only the row delete is issued |
| CreateRequestPage.DeletedImageBlobOrphaned | src/components/CreateRequestPage.tsx:259-267 | a stored image deleted on the page and saved: the row is deleted but its blob is not removed |
| CreateRequestPage.CorrectedRemovalPaths | src/services/requestService.ts:138-145 | the corrected lookup only returns paths of listed or removed documents |
| CreateRequestPage.CorrectedRemovalExact | src/services/requestService.ts:138-145 | the corrected lookup returns exactly the paths of the removed documents |
| CreateRequestPage.CorrectedRemovalOnPage | src/components/CreateRequestPage.tsx:259-267 | on every page state it returns exactly the blobs of the documents deleted since the last save |
| RequestFormPage.ModeGating | src/components/RequestFormPage.tsx:297-317 | save and approval controls never appear together; the form is read-only exactly when save controls are hidden; view mode shows neither |
| RequestFormPage.Heading | src/components/RequestFormPage.tsx:149-157 | the heading per mode; with save controls and no request being edited it is "Create New Request" |
| RequestFormPage.FindIndex | src/components/RequestFormPage.tsx:230-232 | the position of the first document with the id, or -1 exactly when there is none |
| RequestFormPage.FormPage.constructor | src/components/RequestFormPage.tsx:33-56 | empty lists and no preview; fields from the request being edited |
| RequestFormPage.FormPage.EditTitle | src/components/RequestFormPage.tsx:164-170 | typing changes the title except in approval and view mode |
| RequestFormPage.FormPage.EditDescription | src/components/RequestFormPage.tsx:178-184 | typing changes the description except in approval and view mode |
| RequestFormPage.FormPage.EditComment | src/components/RequestFormPage.tsx:276-286 | the comment box exists only in approval mode |
| RequestFormPage.FormPage.HandleFileChange | src/components/RequestFormPage.tsx:66-69 | picked files are appended when the upload zone is shown |
| RequestFormPage.FormPage.HandleDrop | src/components/RequestFormPage.tsx:71-76 | dropped files are appended when the upload zone is shown |
| RequestFormPage.FormPage.PressDelete | src/components/RequestFormPage.tsx:252-262 | only a new-file tile has a delete button, and it removes that file |
| RequestFormPage.FormPage.ClickTile | src/components/RequestFormPage.tsx:225-237 | an existing image opens the slideshow at the first listed document with its id, a valid position no later than the tile |
| RequestFormPage.FormPage.ShowPrev | src/components/RequestFormPage.tsx:350-354 | the open slideshow moves to Prev |
| RequestFormPage.FormPage.ShowNext | src/components/RequestFormPage.tsx:350-354 | the open slideshow moves to Next |
| RequestFormPage.FormPage.ClosePreview | src/components/RequestFormPage.tsx:350-354 | closing hides the slideshow |
| RequestFormPage.FormPage.HandleAction | src/components/RequestFormPage.tsx:86-110 | when the save buttons show, saves with an empty deleted list and closes the page on success, leaving its lists as they were |
| RequestFormPage.FormPage.Save | src/components/RequestFormPage.tsx:90-100 | the service receives the page's fields and no deleted ids |
| RequestFormPage.FormSaveDeletesNothing | src/components/RequestFormPage.tsx:39 | with no deleted ids the save issues no removal and the table keeps every row |

## Left out

- `performApprovalAction` and `fetchRequestDocuments` are imported by
  `RequestFormPage.tsx` but defined in no file of this model. The form
  page's approval buttons are therefore not modelled, and its document
  fetch is a constructor parameter.
- Authentication is not modelled. The signed-in user is a parameter.
- The audit log and `AuditLog.tsx`, `App.tsx` and `UserProfileBadge.tsx`
  are not part of this model.
- RequestService.Backend.UploadDocuments: the batch row insert always
  succeeds, so the error the source throws after it is not modelled.
- RequestService.Backend.CreateRequest: the row insert always succeeds, so
  the insert error the source throws is not modelled. Only the employee
  lookup can fail.
- RequestService.Backend.SaveEdit: the row update and the row delete of an
  edit always succeed. The source ignores their errors anyway.
- The blob removal's own result is not modelled.
- `getPublicUrl`, `URL.createObjectURL`, image rendering, styling, the
  `loading` flag that disables the buttons, `alert` and `console.error`
  are left out.
- Concurrency is left out. That covers two saves in flight, and a document
  fetch that resolves after the user has started editing: it is modelled
  as done when the page mounts.
- Ids are strings in the source and natural numbers here. The request id
  in a storage key is rendered in decimal.
- Text.CollapseWhitespace: the whitespace class is a fixed finite set of
  characters. It is not the full Unicode `White_Space` property that
  JavaScript's `\s` matches.
- `isEditMode` and `requestToEdit` are one value here: an edit is a
  present target.
- RequestService.StorageKeyInjective: two files stamped with the same
  clock reading and sanitising to the same name get the same key. The model shows this (`StorageKeyInjective`) but
  does not model the bucket's overwrite refusal beyond the `failAt` oracle.
- The slideshow on an index out of range: the source throws while
  rendering, and the model shows `Broken`.

## Findings

| source | as written | input that shows it | evidently intended | confidence | as-written member | corrected member |
|---|---|---|---|---|---|---|
| src/components/CreateRequestPage.tsx:259-267 with src/services/requestService.ts:138-150 | deleting a stored document removes it from `existingDocs`, and the save then looks the deleted ids up in that same list, so no blob path is ever found and only the row is deleted | a request with one stored document `7/100-scan.png` (id 1): delete it on the page and save; the row for id 1 is deleted, but the blob `7/100-scan.png` stays in the bucket with no row pointing to it | the blobs of every deleted document are removed along with their rows | not executed | CreateRequestPage.DeletedImageBlobOrphaned | CreateRequestPage.CorrectedRemovalExact |
