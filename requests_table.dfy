/** The request list: one row per request with its creator, its current
    approver, its status and at most one action, either an edit button or a
    view button, chosen by the status string. */
module RequestsTable {
  import opened Wrappers
  import opened Lifecycle

  /** A request as the list receives it; `status` is the raw column text
      and the two emails may be null. */
  datatype Request = Request(
    id: string, title: string, status: string,
    createdBy: Option<string>, approver: Option<string>)

  /** Only a draft or a request sent back for edit may be edited. */
  predicate CanEdit(status: string)
    ensures CanEdit(status) <==> status == StatusName(Draft) || status == StatusName(RejectedWithEdit)
  {
    status == "DRAFT" || status == "REJECTED_WITH_EDIT"
  }

  /** The edit permission agrees with the lifecycle: exactly the statuses
      Draft and RejectedWithEdit, and no string outside the five stored
      names (a lower-case or misspelt status fails closed). */
  lemma CanEditByStatus(status: string)
    ensures CanEdit(status) <==>
      ParseStatus(status) == Some(Draft) || ParseStatus(status) == Some(RejectedWithEdit)
    ensures ParseStatus(status).None? ==> !CanEdit(status)
  {
  }

  lemma CanEditStatusName(s: Status)
    ensures CanEdit(StatusName(s)) <==> s == Draft || s == RejectedWithEdit
  {
  }

  /** A text cell: a missing or empty value is shown as a dash. */
  function Cell(v: Option<string>): (c: string)
    ensures c != ""
    ensures v.Some? && v.value != "" ==> c == v.value
    ensures v.None? || v.value == "" ==> c == "-"
  {
    if v.Some? && v.value != "" then v.value else "-"
  }

  /** One rendered row: its four text cells and which buttons it shows. */
  datatype RowView = RowView(
    title: string, origin: string, approver: string, status: string,
    editButton: bool, viewButton: bool)

  /** Either a bare message in place of the table, or the table's rows. */
  datatype TableView = Message(text: string) | Table(rows: seq<RowView>)

  /** The text shown for an empty list. */
  const EmptyMessage := "No requests found."

  /** The row for one request; `onEdit` and `onView` say whether the page
      passed each handler. */
  function RenderRow(r: Request, onEdit: bool, onView: bool): (v: RowView)
    ensures !(v.editButton && v.viewButton)
    ensures onEdit && onView ==> v.editButton != v.viewButton
    ensures v.editButton ==> ParseStatus(r.status) in {Some(Draft), Some(RejectedWithEdit)}
    ensures v.title == r.title && v.status == r.status
    ensures v.origin == Cell(r.createdBy) && v.approver == Cell(r.approver)
  {
    var canEdit := CanEdit(r.status);
    RowView(r.title, Cell(r.createdBy), Cell(r.approver), r.status,
            canEdit && onEdit, !canEdit && onView)
  }

  /** The whole list: the empty-state message for a null or empty list,
      otherwise one row per request in the given order. */
  function Render(requests: Option<seq<Request>>, onEdit: bool, onView: bool): (t: TableView)
    ensures t.Message? <==> requests.None? || |requests.value| == 0
    ensures t.Message? ==> t.text == EmptyMessage
    ensures t.Table? ==>
      |t.rows| == |requests.value| &&
      forall i :: 0 <= i < |t.rows| ==> t.rows[i] == RenderRow(requests.value[i], onEdit, onView)
  {
    if requests.None? || |requests.value| == 0 then Message(EmptyMessage)
    else Table(seq(|requests.value|, i requires 0 <= i < |requests.value| =>
                     RenderRow(requests.value[i], onEdit, onView)))
  }

  /** A row in the rendered table offers editing exactly when the request
      is editable and the page handles editing, and viewing exactly in the
      other case when the page handles viewing. */
  lemma RenderedActions(requests: seq<Request>, onEdit: bool, onView: bool, i: nat)
    requires i < |requests|
    ensures Render(Some(requests), onEdit, onView).Table?
    ensures var row := Render(Some(requests), onEdit, onView).rows[i];
      && (row.editButton <==> onEdit && CanEdit(requests[i].status))
      && (row.viewButton <==> onView && !CanEdit(requests[i].status))
      && (row.origin == "-" <==> requests[i].createdBy.None? || requests[i].createdBy.value in {"", "-"})
  {
  }
}
