/** The request service: creating a request, uploading its documents, and
    saving a request from a page (edit branch with document reconciliation,
    or create branch). The Supabase tables and the blob bucket are the fields
    of `Backend`; a ghost log records each call the service issues, so that
    the order of calls and the calls that are not made can be stated. */
module RequestService {
  import opened Wrappers
  import opened Text
  import opened Lifecycle
  import opened Documents

  function SetOf<T>(s: seq<T>): set<T> {
    set x | x in s
  }

  // ---------------------------------------------------------------------
  // Storage keys
  // ---------------------------------------------------------------------

  /** `{requestId}/{timestamp}-{safeName}`. */
  function StorageKey(requestId: nat, stamp: nat, safeName: string): (key: string)
    ensures StartsWith(key, Decimal(requestId) + "/")
  {
    Decimal(requestId) + "/" + Decimal(stamp) + "-" + safeName
  }

  /** First position of `c` in `s`. */
  function IndexOf(s: string, c: char): (r: Option<nat>)
    ensures r.Some? ==> r.value < |s| && s[r.value] == c && c !in s[..r.value]
    ensures r.None? ==> c !in s
  {
    if s == [] then None
    else if s[0] == c then Some(0)
    else match IndexOf(s[1..], c)
      case None => None
      case Some(i) => assert s[..i + 1] == [s[0]] + s[1..][..i]; Some(i + 1)
  }

  datatype KeyParts = KeyParts(requestId: string, stamp: string, name: string)

  /** Reads a storage key back: the request id up to the first '/', the stamp
      up to the next '-', and the sanitised name after it. */
  function SplitKey(key: string): Option<KeyParts>
  {
    match IndexOf(key, '/')
    case None => None
    case Some(i) =>
      var rest := key[i + 1..];
      match IndexOf(rest, '-')
      case None => None
      case Some(j) => Some(KeyParts(key[..i], rest[..j], rest[j + 1..]))
  }

  lemma {:induction false} IndexOfAfter(a: string, c: char, b: string)
    requires c !in a
    ensures IndexOf(a + [c] + b, c) == Some(|a|)
  {
    if a != [] {
      assert (a + [c] + b)[1..] == a[1..] + [c] + b;
      IndexOfAfter(a[1..], c, b);
    }
  }

  lemma DecimalHasNo(n: nat, c: char)
    requires !IsDigit(c)
    ensures c !in Decimal(n)
  {
  }

  /** A storage key splits back into the request id, the stamp and the
      sanitised name it was built from. */
  lemma SplitStorageKey(requestId: nat, stamp: nat, safeName: string)
    ensures SplitKey(StorageKey(requestId, stamp, safeName)) ==
      Some(KeyParts(Decimal(requestId), Decimal(stamp), safeName))
  {
    var rid, ts := Decimal(requestId), Decimal(stamp);
    var key := StorageKey(requestId, stamp, safeName);
    DecimalHasNo(requestId, '/');
    DecimalHasNo(stamp, '-');
    assert key == rid + ['/'] + (ts + "-" + safeName);
    IndexOfAfter(rid, '/', ts + "-" + safeName);
    var rest := key[|rid| + 1..];
    assert rest == ts + ['-'] + safeName;
    IndexOfAfter(ts, '-', safeName);
    assert key[..|rid|] == rid;
    assert rest[..|ts|] == ts;
    assert rest[|ts| + 1..] == safeName;
    assert IndexOf(key, '/') == Some(|rid|);
    assert IndexOf(rest, '-') == Some(|ts|);
  }

  /** Two uploads share a key only when request, stamp and sanitised name
      all agree: files of one request that land in the same millisecond
      collide exactly when their names sanitise alike. */
  lemma StorageKeyInjective(r1: nat, t1: nat, n1: string, r2: nat, t2: nat, n2: string)
    requires StorageKey(r1, t1, n1) == StorageKey(r2, t2, n2)
    ensures r1 == r2 && t1 == t2 && n1 == n2
  {
    SplitStorageKey(r1, t1, n1);
    SplitStorageKey(r2, t2, n2);
    DecimalInjective(r1, r2);
    DecimalInjective(t1, t2);
  }

  // ---------------------------------------------------------------------
  // Upload plan and the batch row insert
  // ---------------------------------------------------------------------

  /** One `documents` row waiting to be inserted. */
  datatype Upload = Upload(fileName: string, filePath: string)

  /** The row `uploadDocuments` prepares for each file, in input order; the
      k-th file is stamped with `stamps[k]` (its reading of the clock). */
  function UploadPlan(requestId: nat, files: seq<FileItem>, stamps: seq<nat>): (plan: seq<Upload>)
    requires |stamps| == |files|
    ensures |plan| == |files|
    ensures forall k :: 0 <= k < |plan| ==> plan[k].fileName == files[k].name
    ensures forall k :: 0 <= k < |plan| ==> StartsWith(plan[k].filePath, Decimal(requestId) + "/")
  {
    seq(|files|, k requires 0 <= k < |files| =>
      Upload(files[k].name, StorageKey(requestId, stamps[k], SafeName(files[k].name))))
  }

  /** Each planned key carries the request id, the file's stamp and the
      sanitised form of the file's own name. */
  lemma PlanKeys(requestId: nat, files: seq<FileItem>, stamps: seq<nat>, k: nat)
    requires |stamps| == |files| && k < |files|
    ensures SplitKey(UploadPlan(requestId, files, stamps)[k].filePath) ==
      Some(KeyParts(Decimal(requestId), Decimal(stamps[k]), SafeName(files[k].name)))
    ensures AllSafe(SplitKey(UploadPlan(requestId, files, stamps)[k].filePath).value.name)
  {
    SplitStorageKey(requestId, stamps[k], SafeName(files[k].name));
  }

  /** The blob paths of a plan, as a set. */
  function PathSet(plan: seq<Upload>): (paths: set<string>)
    ensures forall k :: 0 <= k < |plan| ==> plan[k].filePath in paths
  {
    if |plan| == 0 then {} else PathSet(plan[..|plan| - 1]) + {plan[|plan| - 1].filePath}
  }

  lemma PathSetExtend(plan: seq<Upload>, i: nat)
    requires i < |plan|
    ensures PathSet(plan[..i + 1]) == PathSet(plan[..i]) + {plan[i].filePath}
  {
    assert plan[..i + 1][..i] == plan[..i];
  }

  /** The blob store refuses the write of file number `failAt.value`. */
  predicate Fails(failAt: Option<nat>, count: nat) {
    failAt.Some? && failAt.value < count
  }

  /** The uploads whose blob was written before the loop stopped. */
  function Stored(plan: seq<Upload>, failAt: Option<nat>): seq<Upload> {
    if Fails(failAt, |plan|) then plan[..failAt.value] else plan
  }

  predicate KeysBelow(table: map<nat, Doc>, bound: nat) {
    forall id :: id in table ==> id < bound
  }

  /** The batch insert: the rows get consecutive fresh ids from `firstId`. */
  function InsertRows(table: map<nat, Doc>, firstId: nat, requestId: nat, plan: seq<Upload>): map<nat, Doc>
    decreases |plan|
  {
    if plan == [] then table
    else InsertRows(table[firstId := Doc(firstId, requestId, plan[0].fileName, plan[0].filePath)],
                    firstId + 1, requestId, plan[1..])
  }

  /** The insert keeps every old row and adds exactly one row per planned
      upload, in order, with the planned name and path. */
  lemma {:induction false} InsertRowsContents(table: map<nat, Doc>, firstId: nat, requestId: nat, plan: seq<Upload>)
    requires KeysBelow(table, firstId)
    ensures var t := InsertRows(table, firstId, requestId, plan);
      && (forall id :: id in t <==> id in table || firstId <= id < firstId + |plan|)
      && (forall id :: id in table ==> t[id] == table[id])
      && (forall k :: 0 <= k < |plan| ==>
            t[firstId + k] == Doc(firstId + k, requestId, plan[k].fileName, plan[k].filePath))
    decreases |plan|
  {
    if plan != [] {
      var row := Doc(firstId, requestId, plan[0].fileName, plan[0].filePath);
      var next := table[firstId := row];
      InsertRowsContents(next, firstId + 1, requestId, plan[1..]);
      var t := InsertRows(table, firstId, requestId, plan);
      assert firstId in next;
      forall k | 0 <= k < |plan|
        ensures firstId + k in t && t[firstId + k] == Doc(firstId + k, requestId, plan[k].fileName, plan[k].filePath)
      {
        if k > 0 {
          assert plan[1..][k - 1] == plan[k];
          assert t[firstId + 1 + (k - 1)] == Doc(firstId + 1 + (k - 1), requestId, plan[1..][k - 1].fileName, plan[1..][k - 1].filePath);
        }
      }
    }
  }

  predicate IdsMatchKeys(table: map<nat, Doc>) {
    forall id :: id in table ==> table[id].id == id
  }

  /** The insert keeps every row filed under its own id and every id below
      the next fresh one. */
  lemma InsertRowsKeepsIds(table: map<nat, Doc>, firstId: nat, requestId: nat, plan: seq<Upload>)
    requires KeysBelow(table, firstId) && IdsMatchKeys(table)
    ensures KeysBelow(InsertRows(table, firstId, requestId, plan), firstId + |plan|)
    ensures IdsMatchKeys(InsertRows(table, firstId, requestId, plan))
  {
    InsertRowsContents(table, firstId, requestId, plan);
    var t := InsertRows(table, firstId, requestId, plan);
    forall id | id in t ensures t[id].id == id {
      if id !in table {
        assert firstId <= id < firstId + |plan|;
        var k := id - firstId;
        assert 0 <= k < |plan|;
        assert t[firstId + k] == Doc(firstId + k, requestId, plan[k].fileName, plan[k].filePath);
      }
    }
  }

  // ---------------------------------------------------------------------
  // Edit-time reconciliation
  // ---------------------------------------------------------------------

  /** The `file_path`s of the listed documents whose id is to be deleted. */
  function PathsToRemove(existing: seq<Doc>, deleted: seq<nat>): (paths: seq<string>)
    ensures forall p :: p in paths <==> exists d :: d in existing && d.id in deleted && d.filePath == p
  {
    if existing == [] then []
    else
      var rest := PathsToRemove(existing[1..], deleted);
      assert forall d :: d in existing <==> d == existing[0] || d in existing[1..];
      if existing[0].id in deleted then [existing[0].filePath] + rest else rest
  }

  /** `documents` without the rows whose id is listed. */
  function RemoveIds(table: map<nat, Doc>, ids: seq<nat>): (t: map<nat, Doc>)
    ensures t.Keys == table.Keys - SetOf(ids)
    ensures forall id :: id in t ==> t[id] == table[id]
  {
    table - SetOf(ids)
  }

  // ---------------------------------------------------------------------
  // The calls the service issues
  // ---------------------------------------------------------------------

  datatype Call =
    | SelectEmployee(email: Email)     // read `reports_to`
    | InsertRequest(id: nat)
    | UpdateRequest(id: nat)
    | PutBlob(path: string)            // one blob upload
    | RemoveBlobs(paths: seq<string>)  // one bulk blob removal
    | DeleteDocs(ids: seq<nat>)        // delete rows by id
    | InsertDocs(rows: seq<Upload>)    // one batch row insert

  function Puts(plan: seq<Upload>): (calls: seq<Call>)
    ensures |calls| == |plan|
    ensures forall k :: 0 <= k < |plan| ==> calls[k] == PutBlob(plan[k].filePath)
  {
    seq(|plan|, k requires 0 <= k < |plan| => PutBlob(plan[k].filePath))
  }

  lemma PutsExtend(plan: seq<Upload>, i: nat)
    requires i < |plan|
    ensures Puts(plan[..i + 1]) == Puts(plan[..i]) + [PutBlob(plan[i].filePath)]
  {
    assert plan[..i + 1][i] == plan[i];
  }

  /** `uploadDocuments`: nothing for no files; otherwise one blob write per
      file up to and including a refused one, and the single row insert only
      when every write succeeded. */
  function UploadCalls(plan: seq<Upload>, failAt: Option<nat>): seq<Call> {
    if |plan| == 0 then []
    else if Fails(failAt, |plan|) then WriteCalls(plan, failAt)
    else WriteCalls(plan, failAt) + [InsertDocs(plan)]
  }

  /** The blob writes of the upload loop: up to and including a refused
      one, otherwise one per planned row. */
  function WriteCalls(plan: seq<Upload>, failAt: Option<nat>): seq<Call> {
    if Fails(failAt, |plan|) then Puts(plan[..failAt.value + 1]) else Puts(plan)
  }

  /** A refused blob write means no row is inserted; otherwise exactly one
      insert carries every planned row, in order, after all the writes. */
  lemma UploadCallsShape(plan: seq<Upload>, failAt: Option<nat>)
    ensures Fails(failAt, |plan|) ==> forall c :: c in UploadCalls(plan, failAt) ==> c.PutBlob?
    ensures |plan| > 0 && !Fails(failAt, |plan|) ==>
      var calls := UploadCalls(plan, failAt);
      |calls| == |plan| + 1 && calls[|plan|] == InsertDocs(plan) &&
      forall k :: 0 <= k < |plan| ==> calls[k] == PutBlob(plan[k].filePath)
  {
  }

  function CreateCalls(dir: Directory, userEmail: Email, submit: bool, newId: nat): seq<Call> {
    (if submit then [SelectEmployee(userEmail)] else [])
    + (if CreateAssignment(dir, userEmail, submit).Success? then [InsertRequest(newId)] else [])
  }

  /** Deleted documents: a bulk blob removal only when some listed document
      was selected, then the row delete, and nothing at all for no ids. */
  function RemovalCalls(existing: seq<Doc>, deleted: seq<nat>): seq<Call> {
    if |deleted| == 0 then []
    else
      var paths := PathsToRemove(existing, deleted);
      (if |paths| > 0 then [RemoveBlobs(paths)] else []) + [DeleteDocs(deleted)]
  }

  /** The row update of an edit, preceded by the directory read when
      submitting. */
  function EditHead(userEmail: Email, submit: bool, requestId: nat): seq<Call> {
    (if submit then [SelectEmployee(userEmail)] else []) + [UpdateRequest(requestId)]
  }

  function EditCalls(userEmail: Email, submit: bool, requestId: nat, existing: seq<Doc>,
                     deleted: seq<nat>, plan: seq<Upload>, failAt: Option<nat>): seq<Call>
  {
    EditHead(userEmail, submit, requestId) + RemovalCalls(existing, deleted) + UploadCalls(plan, failAt)
  }

  lemma AppendThree<T>(s: seq<T>, a: seq<T>, b: seq<T>, c: seq<T>)
    ensures s + a + b + c == s + (a + b + c)
  {
  }

  predicate IsRemoval(c: Call) { c.RemoveBlobs? || c.DeleteDocs? }

  predicate IsUpload(c: Call) { c.PutBlob? || c.InsertDocs? }

  /** Calls of three kinds laid end to end: the removal calls all come
      before the upload calls. */
  lemma {:induction false} OrderedConcat(head: seq<Call>, rem: seq<Call>, up: seq<Call>)
    requires forall c :: c in head ==> !IsRemoval(c) && !IsUpload(c)
    requires forall c :: c in rem ==> IsRemoval(c) && !IsUpload(c)
    requires forall c :: c in up ==> IsUpload(c) && !IsRemoval(c)
    ensures var calls := head + rem + up;
      forall i, j :: 0 <= i < |calls| && 0 <= j < |calls| && IsRemoval(calls[i]) && IsUpload(calls[j]) ==> i < j
  {
    var calls := head + rem + up;
    forall i | 0 <= i < |calls|
      ensures IsRemoval(calls[i]) ==> |head| <= i < |head| + |rem|
      ensures IsUpload(calls[i]) ==> |head| + |rem| <= i
    {
      if i < |head| {
        assert calls[i] == head[i];
      } else if i < |head| + |rem| {
        assert calls[i] == rem[i - |head|];
      } else {
        assert calls[i] == up[i - |head| - |rem|];
      }
    }
  }

  /** In an edit, every removal call precedes every upload call, no bulk
      removal is issued with an empty path list, and the row delete covers
      every deleted id. */
  lemma EditCallOrder(userEmail: Email, submit: bool, requestId: nat, existing: seq<Doc>,
                      deleted: seq<nat>, plan: seq<Upload>, failAt: Option<nat>)
    ensures var calls := EditCalls(userEmail, submit, requestId, existing, deleted, plan, failAt);
      && (forall i, j :: 0 <= i < |calls| && 0 <= j < |calls| && IsRemoval(calls[i]) && IsUpload(calls[j]) ==> i < j)
      && (forall c :: c in calls && c.RemoveBlobs? ==> c.paths != [])
      && (|deleted| > 0 <==> DeleteDocs(deleted) in calls)
  {
    var head := EditHead(userEmail, submit, requestId);
    var rem := RemovalCalls(existing, deleted);
    var up := UploadCalls(plan, failAt);
    assert forall c :: c in up ==> c.PutBlob? || c.InsertDocs?;
    OrderedConcat(head, rem, up);
    var calls := head + rem + up;
    assert forall c :: c in calls ==> c in head || c in rem || c in up;
    if DeleteDocs(deleted) in calls {
      assert DeleteDocs(deleted) !in head && DeleteDocs(deleted) !in up;
    }
  }

  // ---------------------------------------------------------------------
  // The tables, the bucket and the service operations
  // ---------------------------------------------------------------------

  class Backend {
    /** The `employees` table, which the service only reads. */
    var employees: Directory
    var requests: map<nat, RequestRow>
    var documents: map<nat, Doc>
    /** The paths stored in the `request-documents` bucket. */
    var blobs: set<string>
    /** The next id the database hands out. */
    var nextId: nat
    ghost var log: seq<Call>

    ghost predicate Valid()
      reads this
    {
      && (forall id :: id in requests ==> id < nextId)
      && KeysBelow(documents, nextId)
      && IdsMatchKeys(documents)
    }

    constructor (employees: Directory)
      ensures Valid()
      ensures this.employees == employees && requests == map[] && documents == map[]
      ensures blobs == {} && log == []
    {
      this.employees := employees;
      requests, documents, blobs, nextId := map[], map[], {}, 0;
      log := [];
    }

    /** `createRequest`. */
    method CreateRequest(title: string, description: string, userEmail: Email, submit: bool)
      returns (r: Result<nat, Error>)
      requires Valid()
      modifies this
      ensures Valid()
      ensures employees == old(employees) && documents == old(documents) && blobs == old(blobs)
      ensures var a := CreateAssignment(employees, userEmail, submit);
        && (r.Success? <==> a.Success?)
        && (r.Failure? ==> r.error == a.error && requests == old(requests) && nextId == old(nextId))
        && (r.Success? ==>
              && r.value == old(nextId) && r.value !in old(requests)
              && requests == old(requests)[r.value := NewRow(title, description, userEmail, a.value)]
              && nextId == old(nextId) + 1)
      ensures log == old(log) + CreateCalls(employees, userEmail, submit, old(nextId))
    {
      var status := Draft;
      var approver: Option<Email> := None;
      if submit {
        log := log + [SelectEmployee(userEmail)];
        if userEmail !in employees {
          return Failure(LookupFailed(userEmail));
        }
        var reportsTo := employees[userEmail];
        if reportsTo.None? || reportsTo.value == "" {
          return Failure(NoApproverConfigured);
        }
        approver := reportsTo;
        status := Pending;
      }
      var id := nextId;
      requests := requests[id := RequestRow(title, description, userEmail, approver, status)];
      nextId := nextId + 1;
      log := log + [InsertRequest(id)];
      r := Success(id);
    }

    /** `uploadDocuments`: for each file in turn, derive its key and write its
        blob, stopping at the first refused write; then insert all rows in one
        batch. `stamps[k]` is the clock reading for file k, and `failAt` the
        file whose write the bucket refuses, if any. */
    method UploadDocuments(files: seq<FileItem>, requestId: nat, stamps: seq<nat>, failAt: Option<nat>)
      returns (r: Outcome<Error>)
      requires Valid()
      requires |stamps| == |files|
      modifies this
      ensures Valid()
      ensures employees == old(employees) && requests == old(requests)
      ensures var plan := UploadPlan(requestId, files, stamps);
        && (r.Fail? <==> Fails(failAt, |plan|))
        && (r.Fail? ==> r.error == UploadFailed(plan[failAt.value].filePath))
        && blobs == old(blobs) + PathSet(Stored(plan, failAt))
        && (r.Fail? ==> documents == old(documents) && nextId == old(nextId))
        && (r.Pass? ==> documents == InsertRows(old(documents), old(nextId), requestId, plan)
                        && nextId == old(nextId) + |plan|)
        && log == old(log) + UploadCalls(plan, failAt)
    {
      var docsToInsert := UploadPlan(requestId, files, stamps);
      r := UploadRows(requestId, docsToInsert, failAt);
    }

    /** `uploadDocuments` once every file's row is prepared: nothing for no
        rows; otherwise the blob writes, then the batch insert when none was
        refused. */
    method UploadRows(requestId: nat, plan: seq<Upload>, failAt: Option<nat>) returns (r: Outcome<Error>)
      requires Valid()
      modifies this
      ensures Valid()
      ensures employees == old(employees) && requests == old(requests)
      ensures r.Fail? <==> Fails(failAt, |plan|)
      ensures r.Fail? ==> r.error == UploadFailed(plan[failAt.value].filePath)
      ensures blobs == old(blobs) + PathSet(Stored(plan, failAt))
      ensures r.Fail? ==> documents == old(documents) && nextId == old(nextId)
      ensures r.Pass? ==> documents == InsertRows(old(documents), old(nextId), requestId, plan)
                          && nextId == old(nextId) + |plan|
      ensures log == old(log) + UploadCalls(plan, failAt)
    {
      if |plan| == 0 {
        assert PathSet(Stored(plan, failAt)) == {};
        return Pass;
      }
      var failed, written, calls := WriteBlobs(plan, failAt);
      blobs, log := blobs + written, log + calls;
      if failed.Some? {
        return Fail(UploadFailed(failed.value));
      }
      InsertDocuments(requestId, plan);
      r := Pass;
    }

    /** The loop of `uploadDocuments`: one blob write per planned row, in
        order, stopping at the refused one. Returns the refused path, if
        any, the paths the bucket accepted and the calls issued; the caller
        adds the accepted paths to the bucket. */
    static method WriteBlobs(plan: seq<Upload>, failAt: Option<nat>)
      returns (failed: Option<string>, written: set<string>, ghost calls: seq<Call>)
      ensures failed.Some? <==> Fails(failAt, |plan|)
      ensures failed.Some? ==> failed.value == plan[failAt.value].filePath
      ensures calls == WriteCalls(plan, failAt)
      ensures written == PathSet(Stored(plan, failAt))
    {
      failed, written, calls := None, {}, [];
      var i := 0;
      while i < |plan|
        invariant 0 <= i <= |plan|
        invariant !Fails(failAt, i)
        invariant written == PathSet(plan[..i])
        invariant calls == Puts(plan[..i])
      {
        PutsExtend(plan, i);
        calls := calls + [PutBlob(plan[i].filePath)];
        if failAt == Some(i) {
          assert Stored(plan, failAt) == plan[..i];
          failed := Some(plan[i].filePath);
          return;
        }
        PathSetExtend(plan, i);
        written := written + {plan[i].filePath};
        i := i + 1;
      }
      assert plan[..i] == plan;
    }

    /** The batch insert of the prepared rows under fresh ids. */
    method InsertDocuments(requestId: nat, rows: seq<Upload>)
      requires Valid()
      modifies this
      ensures Valid()
      ensures employees == old(employees) && requests == old(requests) && blobs == old(blobs)
      ensures documents == InsertRows(old(documents), old(nextId), requestId, rows)
      ensures nextId == old(nextId) + |rows|
      ensures log == old(log) + [InsertDocs(rows)]
    {
      InsertRowsKeepsIds(documents, nextId, requestId, rows);
      documents := InsertRows(documents, nextId, requestId, rows);
      nextId := nextId + |rows|;
      log := log + [InsertDocs(rows)];
    }

    /** The edit branch's row update: with `submit` it first reads the
        user's `reports_to` (an unknown user or an empty value leaves no
        approver); a missing row is left alone. */
    method UpdateEditedRow(userEmail: Email, id: nat, title: string, description: string, submit: bool)
      requires Valid()
      modifies this
      ensures Valid()
      ensures employees == old(employees) && documents == old(documents) && blobs == old(blobs)
      ensures nextId == old(nextId)
      ensures requests == (if id in old(requests)
                           then old(requests)[id := EditedRow(old(requests)[id], title, description,
                                                              EditAssignment(employees, userEmail, submit))]
                           else old(requests))
      ensures log == old(log) + EditHead(userEmail, submit, id)
    {
      var status := Draft;
      var approver: Option<Email> := None;
      if submit {
        log := log + [SelectEmployee(userEmail)];
        approver := if userEmail in employees && employees[userEmail].Some? && employees[userEmail].value != ""
                    then employees[userEmail] else None;
        status := Pending;
      }
      log := log + [UpdateRequest(id)];
      if id in requests {
        requests := requests[id := requests[id].(title := title, description := description,
                                                 status := status, approver := approver)];
      }
    }

    /** The edit branch's removal of deleted documents: the blobs of the
        listed documents whose id was deleted, then the rows of every
        deleted id; nothing at all when no id was deleted. */
    method DeleteDocuments(existingDocs: seq<Doc>, deletedDocIds: seq<nat>)
      requires Valid()
      modifies this
      ensures Valid()
      ensures employees == old(employees) && requests == old(requests) && nextId == old(nextId)
      ensures blobs == old(blobs) - SetOf(PathsToRemove(existingDocs, deletedDocIds))
      ensures documents == RemoveIds(old(documents), deletedDocIds)
      ensures log == old(log) + RemovalCalls(existingDocs, deletedDocIds)
    {
      var paths := PathsToRemove(existingDocs, deletedDocIds);
      if |deletedDocIds| > 0 {
        if |paths| > 0 {
          log := log + [RemoveBlobs(paths)];
          blobs := blobs - SetOf(paths);
        }
        log := log + [DeleteDocs(deletedDocIds)];
        documents := RemoveIds(documents, deletedDocIds);
      } else {
        assert SetOf(deletedDocIds) == {};
      }
    }

    /** The approval buttons' row update: status and approver only. */
    method ApplyApproval(id: nat, a: Assignment)
      requires Valid()
      modifies this
      ensures Valid()
      ensures employees == old(employees) && documents == old(documents) && blobs == old(blobs)
      ensures nextId == old(nextId)
      ensures requests == (if id in old(requests) then old(requests)[id := UpdatedRow(old(requests)[id], a)]
                           else old(requests))
      ensures log == old(log) + [UpdateRequest(id)]
    {
      log := log + [UpdateRequest(id)];
      if id in requests {
        requests := requests[id := requests[id].(status := a.status, approver := a.approver)];
      }
    }

    /** `saveRequestWithDocuments`. `user` is the signed-in user's email as
        the auth client reports it; `requestToEdit` is the id of the request
        being edited, or None on a page that creates one. In the edit branch
        the row update, blob removal and row delete report no error; only the
        upload can fail. */
    method SaveRequestWithDocuments(
      user: Option<Email>, requestToEdit: Option<nat>, title: string, description: string,
      files: seq<FileItem>, existingDocs: seq<Doc>, deletedDocIds: seq<nat>, submit: bool,
      stamps: seq<nat>, failAt: Option<nat>)
      returns (r: Outcome<Error>)
      requires Valid()
      requires |stamps| == |files|
      modifies this
      ensures Valid()
      ensures employees == old(employees)
      ensures user.None? || user.value == "" ==> r == Fail(NotAuthenticated) && unchanged(this)
      ensures user.Some? && user.value != "" && requestToEdit.Some? ==>
        EditSaved(old(requests), old(documents), old(blobs), old(nextId), old(log), user.value,
                  requestToEdit.value, title, description, files, existingDocs, deletedDocIds,
                  submit, stamps, failAt, r)
      ensures user.Some? && user.value != "" && requestToEdit.None? ==>
        CreateSaved(old(requests), old(documents), old(blobs), old(nextId), old(log), user.value,
                    title, description, files, submit, stamps, failAt, r)
    {
      if user.None? || user.value == "" {
        return Fail(NotAuthenticated);
      }
      if requestToEdit.Some? {
        r := SaveEdit(user.value, requestToEdit.value, title, description, files, existingDocs,
                      deletedDocIds, submit, stamps, failAt);
      } else {
        r := SaveNew(user.value, title, description, files, submit, stamps, failAt);
      }
    }

    /** What the edit branch leaves behind, from the state before it. */
    ghost predicate EditSaved(
      requests0: map<nat, RequestRow>, documents0: map<nat, Doc>, blobs0: set<string>, nextId0: nat,
      log0: seq<Call>, userEmail: Email, id: nat, title: string, description: string,
      files: seq<FileItem>, existingDocs: seq<Doc>, deletedDocIds: seq<nat>, submit: bool,
      stamps: seq<nat>, failAt: Option<nat>, r: Outcome<Error>)
      reads this
      requires |stamps| == |files|
    {
      var a := EditAssignment(employees, userEmail, submit);
      var plan := UploadPlan(id, files, stamps);
      var kept := RemoveIds(documents0, deletedDocIds);
      && requests == (if id in requests0
                      then requests0[id := EditedRow(requests0[id], title, description, a)]
                      else requests0)
      && (r.Fail? <==> Fails(failAt, |plan|))
      && blobs == (blobs0 - SetOf(PathsToRemove(existingDocs, deletedDocIds))) + PathSet(Stored(plan, failAt))
      && documents == (if r.Pass? then InsertRows(kept, nextId0, id, plan) else kept)
      && log == log0 + EditCalls(userEmail, submit, id, existingDocs, deletedDocIds, plan, failAt)
    }

    /** What the create branch leaves behind, from the state before it. */
    ghost predicate CreateSaved(
      requests0: map<nat, RequestRow>, documents0: map<nat, Doc>, blobs0: set<string>, nextId0: nat,
      log0: seq<Call>, userEmail: Email, title: string, description: string,
      files: seq<FileItem>, submit: bool, stamps: seq<nat>, failAt: Option<nat>, r: Outcome<Error>)
      reads this
      requires |stamps| == |files|
    {
      var c := CreateAssignment(employees, userEmail, submit);
      var plan := UploadPlan(nextId0, files, stamps);
      && (c.Failure? ==> r == Fail(c.error) && requests == requests0
                         && documents == documents0 && blobs == blobs0)
      && (c.Success? ==>
            && requests == requests0[nextId0 := NewRow(title, description, userEmail, c.value)]
            && (r.Fail? <==> Fails(failAt, |plan|))
            && blobs == blobs0 + PathSet(Stored(plan, failAt))
            && documents == (if r.Pass? then InsertRows(documents0, nextId0 + 1, nextId0, plan)
                             else documents0))
      && log == log0 + CreateCalls(employees, userEmail, submit, nextId0)
               + (if c.Success? then UploadCalls(plan, failAt) else [])
    }

    /** The edit branch: update the row, remove the deleted documents, then
        upload the new files. */
    method SaveEdit(userEmail: Email, id: nat, title: string, description: string,
                    files: seq<FileItem>, existingDocs: seq<Doc>, deletedDocIds: seq<nat>, submit: bool,
                    stamps: seq<nat>, failAt: Option<nat>)
      returns (r: Outcome<Error>)
      requires Valid()
      requires |stamps| == |files|
      modifies this
      ensures Valid()
      ensures employees == old(employees)
      ensures EditSaved(old(requests), old(documents), old(blobs), old(nextId), old(log), userEmail,
                        id, title, description, files, existingDocs, deletedDocIds,
                        submit, stamps, failAt, r)
    {
      ghost var log0 := log;
      UpdateEditedRow(userEmail, id, title, description, submit);
      DeleteDocuments(existingDocs, deletedDocIds);
      r := UploadFiles(files, id, stamps, failAt);
      AppendThree(log0, EditHead(userEmail, submit, id), RemovalCalls(existingDocs, deletedDocIds),
                  UploadCalls(UploadPlan(id, files, stamps), failAt));
    }

    /** The create branch: insert the row, then upload the files under its
        fresh id. */
    method SaveNew(userEmail: Email, title: string, description: string,
                   files: seq<FileItem>, submit: bool, stamps: seq<nat>, failAt: Option<nat>)
      returns (r: Outcome<Error>)
      requires Valid()
      requires |stamps| == |files|
      modifies this
      ensures Valid()
      ensures employees == old(employees)
      ensures CreateSaved(old(requests), old(documents), old(blobs), old(nextId), old(log), userEmail,
                          title, description, files, submit, stamps, failAt, r)
    {
      var created := CreateRequest(title, description, userEmail, submit);
      if created.Failure? {
        return Fail(created.error);
      }
      r := UploadFiles(files, created.value, stamps, failAt);
    }

    /** The guard both branches put before `uploadDocuments`: nothing is
        uploaded for an empty file list. */
    method UploadFiles(files: seq<FileItem>, requestId: nat, stamps: seq<nat>, failAt: Option<nat>)
      returns (r: Outcome<Error>)
      requires Valid()
      requires |stamps| == |files|
      modifies this
      ensures Valid()
      ensures employees == old(employees) && requests == old(requests)
      ensures var plan := UploadPlan(requestId, files, stamps);
        && (r.Fail? <==> Fails(failAt, |plan|))
        && blobs == old(blobs) + PathSet(Stored(plan, failAt))
        && (r.Fail? ==> documents == old(documents) && nextId == old(nextId))
        && (r.Pass? ==> documents == InsertRows(old(documents), old(nextId), requestId, plan)
                        && nextId == old(nextId) + |plan|)
        && log == old(log) + UploadCalls(plan, failAt)
    {
      if |files| > 0 {
        r := UploadDocuments(files, requestId, stamps, failAt);
      } else {
        assert PathSet(Stored(UploadPlan(requestId, files, stamps), failAt)) == {};
        r := Pass;
      }
    }
  }
}
