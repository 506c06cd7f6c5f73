/** The request lifecycle as the code decides it: which status and approver a
    request gets when it is created, saved or resubmitted, and what each of
    the four approval buttons writes to the request row. */
module Lifecycle {
  import opened Wrappers
  import opened Text

  datatype Status = Draft | Pending | Approved | Rejected | RejectedWithEdit

  /** The string stored in the `status` column. */
  function StatusName(s: Status): string {
    match s
    case Draft => "DRAFT"
    case Pending => "PENDING"
    case Approved => "APPROVED"
    case Rejected => "REJECTED"
    case RejectedWithEdit => "REJECTED_WITH_EDIT"
  }

  /** Reads a stored status back; any other string is refused. */
  function ParseStatus(name: string): (r: Option<Status>)
    ensures r.Some? ==> StatusName(r.value) == name
  {
    if name == "DRAFT" then Some(Draft)
    else if name == "PENDING" then Some(Pending)
    else if name == "APPROVED" then Some(Approved)
    else if name == "REJECTED" then Some(Rejected)
    else if name == "REJECTED_WITH_EDIT" then Some(RejectedWithEdit)
    else None
  }

  lemma ParseStatusName(s: Status)
    ensures ParseStatus(StatusName(s)) == Some(s)
  {
  }

  type Email = string

  /** The `employees` table as the code reads it: each employee's email and
      `reports_to` column (null when absent). */
  type Directory = map<Email, Option<Email>>

  /** The errors the core raises or propagates. */
  datatype Error =
    | LookupFailed(email: Email)   // the employee row lookup returned an error
    | NoApproverConfigured         // "No approver configured"
    | NotAuthenticated             // "User not authenticated"
    | UploadFailed(path: string)   // the blob store refused a write

  /** The status and `current_approver` written to a request row. */
  datatype Assignment = Assignment(status: Status, approver: Option<Email>)

  /** An approver is only ever set on a pending request. */
  predicate Routed(a: Assignment) {
    a.approver.Some? ==> a.status == Pending
  }

  /** The employee's `reports_to` when it is truthy, that is present and not
      the empty string. */
  function Manager(dir: Directory, email: Email): (r: Option<Email>)
    ensures r.Some? <==> email in dir && dir[email].Some? && dir[email].value != ""
    ensures r.Some? ==> dir[email] == r
  {
    if email in dir && dir[email].Some? && dir[email].value != "" then dir[email] else None
  }

  // ---------------------------------------------------------------------
  // createRequest
  // ---------------------------------------------------------------------

  /** The status and approver `createRequest` writes, or the error it throws
      before inserting anything. */
  function CreateAssignment(dir: Directory, userEmail: Email, submit: bool): (r: Result<Assignment, Error>)
    ensures !submit ==> r == Success(Assignment(Draft, None))
    ensures submit && userEmail !in dir ==> r == Failure(LookupFailed(userEmail))
    ensures submit && userEmail in dir ==>
      (r.Failure? <==> Manager(dir, userEmail).None?) &&
      (r.Failure? ==> r.error == NoApproverConfigured)
    ensures r.Success? ==> (r.value.approver.Some? <==> r.value.status == Pending)
    ensures r.Success? && r.value.approver.Some? ==> r.value.approver == Manager(dir, userEmail)
    ensures submit && r.Success? ==> r.value == Assignment(Pending, Manager(dir, userEmail))
  {
    if !submit then Success(Assignment(Draft, None))
    else if userEmail !in dir then Failure(LookupFailed(userEmail))
    else if Manager(dir, userEmail).None? then Failure(NoApproverConfigured)
    else Success(Assignment(Pending, Manager(dir, userEmail)))
  }

  /** A draft is created without reading the directory at all. */
  lemma DraftIgnoresDirectory(dir1: Directory, dir2: Directory, userEmail: Email)
    ensures CreateAssignment(dir1, userEmail, false) == CreateAssignment(dir2, userEmail, false)
  {
  }

  // ---------------------------------------------------------------------
  // saveRequestWithDocuments, edit branch
  // ---------------------------------------------------------------------

  /** The status and approver the edit branch writes. Unlike creation it never
      fails: a missing employee row or manager leaves the approver null. */
  function EditAssignment(dir: Directory, userEmail: Email, submit: bool): (a: Assignment)
    ensures Routed(a)
    ensures a.status == Pending <==> submit
    ensures submit ==> a.approver == Manager(dir, userEmail)
  {
    if submit then Assignment(Pending, Manager(dir, userEmail)) else Assignment(Draft, None)
  }

  /** Saving an edit agrees with creating the request whenever creation
      succeeds; where creation fails the edit still resubmits, as a pending
      request with no approver. */
  lemma EditAgreesWithCreate(dir: Directory, userEmail: Email, submit: bool)
    ensures CreateAssignment(dir, userEmail, submit).Success? ==>
      EditAssignment(dir, userEmail, submit) == CreateAssignment(dir, userEmail, submit).value
    ensures CreateAssignment(dir, userEmail, submit).Failure? ==>
      EditAssignment(dir, userEmail, submit) == Assignment(Pending, None)
  {
  }

  // ---------------------------------------------------------------------
  // handleApprovalAction
  // ---------------------------------------------------------------------

  datatype ApprovalAction = Approve | Reject | RejectWithEdit | Forward

  /** The comment is mandatory: it must not be empty after trimming. */
  predicate IsBlank(comment: string)
    ensures IsBlank(comment) <==> AllSpace(comment)
  {
    TrimEmptyIffAllSpace(comment);
    Trim(comment) == []
  }

  /** The update an approval button issues, or None when it issues none:
      a blank comment stops every action, and Forward also stops when the
      email prompt is cancelled (`entered == None`) or answered with "". */
  function ApprovalUpdate(action: ApprovalAction, comment: string, entered: Option<string>): (r: Option<Assignment>)
    ensures AllSpace(comment) ==> r.None?
    ensures !AllSpace(comment) && action != Forward ==> r.Some? && r.value.approver.None?
    ensures !AllSpace(comment) && action == Approve ==> r == Some(Assignment(Approved, None))
    ensures !AllSpace(comment) && action == Reject ==> r == Some(Assignment(Rejected, None))
    ensures !AllSpace(comment) && action == RejectWithEdit ==> r == Some(Assignment(RejectedWithEdit, None))
    ensures r.Some? ==> (r.value.approver.Some? <==> r.value.status == Pending)
    ensures action == Forward ==>
      (r.Some? <==> !AllSpace(comment) && entered.Some? && entered.value != "") &&
      (r.Some? ==> r.value.approver == entered)
  {
    if IsBlank(comment) then None
    else
      match action
      case Approve => Some(Assignment(Approved, None))
      case Reject => Some(Assignment(Rejected, None))
      case RejectWithEdit => Some(Assignment(RejectedWithEdit, None))
      case Forward =>
        if entered.None? || entered.value == "" then None
        else Some(Assignment(Pending, entered))
  }

  // ---------------------------------------------------------------------
  // The request row and its life through these operations.
  // ---------------------------------------------------------------------

  /** A row of the `requests` table. */
  datatype RequestRow = RequestRow(
    title: string, description: string, createdBy: Email,
    approver: Option<Email>, status: Status)

  predicate RowRouted(row: RequestRow) {
    row.approver.Some? ==> row.status == Pending
  }

  /** The row `createRequest` inserts. */
  function NewRow(title: string, description: string, userEmail: Email, a: Assignment): (row: RequestRow)
    ensures row.createdBy == userEmail
    ensures Routed(a) ==> RowRouted(row)
  {
    RequestRow(title, description, userEmail, a.approver, a.status)
  }

  /** The row after the edit branch's update: title, description, status and
      approver change; the creator does not. */
  function EditedRow(row: RequestRow, title: string, description: string, a: Assignment): (r: RequestRow)
    ensures r.createdBy == row.createdBy
    ensures Routed(a) ==> RowRouted(r)
  {
    row.(title := title, description := description, status := a.status, approver := a.approver)
  }

  /** The row after an approval update: only status and approver change. */
  function UpdatedRow(row: RequestRow, a: Assignment): (r: RequestRow)
    ensures r.createdBy == row.createdBy && r.title == row.title && r.description == row.description
    ensures Routed(a) ==> RowRouted(r)
  {
    row.(status := a.status, approver := a.approver)
  }

  /** One operation of the core applied to one request. */
  datatype Event =
    | Created(title: string, description: string, user: Email, submit: bool)
    | Saved(title: string, description: string, user: Email, submit: bool)
    | Acted(action: ApprovalAction, comment: string, entered: Option<string>)

  /** The request row after one event; None before it exists. A creation that
      throws leaves no row; an update of a missing row changes nothing. */
  function Step(dir: Directory, row: Option<RequestRow>, e: Event): (r: Option<RequestRow>)
    ensures row.Some? ==> r.Some? && r.value.createdBy == row.value.createdBy
    ensures row.None? && r.Some? ==> e.Created? && r.value.createdBy == e.user
    ensures r.Some? && (row.None? || RowRouted(row.value)) ==> RowRouted(r.value)
  {
    match e
    case Created(t, d, u, s) =>
      if row.None? && CreateAssignment(dir, u, s).Success?
      then Some(NewRow(t, d, u, CreateAssignment(dir, u, s).value))
      else row
    case Saved(t, d, u, s) =>
      if row.Some? then Some(EditedRow(row.value, t, d, EditAssignment(dir, u, s))) else row
    case Acted(act, c, x) =>
      if row.Some? && ApprovalUpdate(act, c, x).Some?
      then Some(UpdatedRow(row.value, ApprovalUpdate(act, c, x).value))
      else row
  }

  /** The request row after a sequence of events, starting from no row. */
  function Replay(dir: Directory, events: seq<Event>): (r: Option<RequestRow>)
    ensures events == [] ==> r.None?
    ensures events != [] && Replay(dir, events[..|events| - 1]).Some? ==> r.Some?
    ensures r.Some? && events != [] && Replay(dir, events[..|events| - 1]).None? ==>
      events[|events| - 1].Created?
  {
    if events == [] then None else Step(dir, Replay(dir, events[..|events| - 1]), events[|events| - 1])
  }

  /** After any sequence of operations a request that has an approver is
      pending, and its creator is the user of the creation that made it. */
  lemma {:induction false} ReplayKeepsRouted(dir: Directory, events: seq<Event>)
    ensures Replay(dir, events).Some? ==> RowRouted(Replay(dir, events).value)
  {
    if events != [] {
      var before := events[..|events| - 1];
      ReplayKeepsRouted(dir, before);
      var e := events[|events| - 1];
      match e
      case Created(t, d, u, s) =>
        if Replay(dir, before).None? && CreateAssignment(dir, u, s).Success? {
          assert Routed(CreateAssignment(dir, u, s).value);
        }
      case Saved(t, d, u, s) =>
      case Acted(act, c, x) =>
        if Replay(dir, before).Some? && ApprovalUpdate(act, c, x).Some? {
          assert Routed(ApprovalUpdate(act, c, x).value);
        }
    }
  }

  /** Once a request exists, no later operation changes its creator. */
  lemma {:induction false} ReplayKeepsCreator(dir: Directory, events: seq<Event>, later: seq<Event>)
    requires Replay(dir, events).Some?
    ensures Replay(dir, events + later).Some?
    ensures Replay(dir, events + later).value.createdBy == Replay(dir, events).value.createdBy
    decreases |later|
  {
    if later == [] {
      assert events + later == events;
    } else {
      var front := later[..|later| - 1];
      assert (events + later)[..|events + later| - 1] == events + front;
      ReplayKeepsCreator(dir, events, front);
    }
  }

  /** The converse of Routed does not hold: resubmitting an edit for a user
      without a manager leaves a pending request that nobody can act on. */
  lemma ResubmitWithoutManager()
    ensures
      var dir: Directory := map["alice@x" := None];
      var events := [Created("T", "D", "alice@x", false), Saved("T", "D", "alice@x", true)];
      Replay(dir, events) == Some(RequestRow("T", "D", "alice@x", None, Pending))
  {
    var dir: Directory := map["alice@x" := None];
    var events := [Created("T", "D", "alice@x", false), Saved("T", "D", "alice@x", true)];
    assert events[..1] == [Created("T", "D", "alice@x", false)];
    assert events[..1][..0] == [];
  }

  /** Reject-with-edit hands the request back with no approver at all, not to
      its creator. */
  lemma RejectWithEditClearsApprover(comment: string, entered: Option<string>)
    requires !AllSpace(comment)
    ensures ApprovalUpdate(RejectWithEdit, comment, entered) == Some(Assignment(RejectedWithEdit, None))
  {
    TrimEmptyIffAllSpace(comment);
  }
}
