/** The document records both request pages hold: rows already stored for a
    request, newly picked files, and the page-local list operations that both
    pages share (append, remove by position, drop by id, the combined grid). */
module Documents {

  /** A row of the `documents` table as the pages fetch it. */
  datatype Doc = Doc(id: nat, requestId: nat, fileName: string, filePath: string)

  /** A browser `File` picked or dropped by the user: its name and MIME type.
      Its bytes are not modelled. */
  datatype FileItem = FileItem(name: string, mime: string)

  /** One tile of the document grid: an existing row or a new file together
      with its position in `files`. */
  datatype Item =
    | Existing(id: nat, fileName: string, filePath: string)
    | Added(file: FileItem, index: nat)

  /** The document grid: every existing document first, in order, then
      every new file tagged with its position in `files`. */
  function CombinedDocs(existing: seq<Doc>, files: seq<FileItem>): (r: seq<Item>)
    ensures |r| == |existing| + |files|
    ensures forall k :: 0 <= k < |existing| ==>
      r[k] == Existing(existing[k].id, existing[k].fileName, existing[k].filePath)
    ensures forall k :: 0 <= k < |files| ==> r[|existing| + k] == Added(files[k], k)
  {
    seq(|existing|, k requires 0 <= k < |existing| =>
      Existing(existing[k].id, existing[k].fileName, existing[k].filePath))
    + seq(|files|, k requires 0 <= k < |files| => Added(files[k], k))
  }

  /** A tile is an existing document exactly when it lies in the first
      `|existing|` positions, so its grid position is also its position in
      `existing`; a new-file tile carries its own position in `files`. */
  lemma CombinedLayout(existing: seq<Doc>, files: seq<FileItem>, k: nat)
    requires k < |existing| + |files|
    ensures CombinedDocs(existing, files)[k].Existing? <==> k < |existing|
    ensures CombinedDocs(existing, files)[k].Existing? ==>
      CombinedDocs(existing, files)[k].id == existing[k].id
    ensures CombinedDocs(existing, files)[k].Added? ==>
      var i := CombinedDocs(existing, files)[k].index;
      i == k - |existing| && i < |files| && CombinedDocs(existing, files)[k].file == files[i]
  {
    if k >= |existing| {
      assert CombinedDocs(existing, files)[|existing| + (k - |existing|)] == Added(files[k - |existing|], k - |existing|);
    }
  }

  /** Drops the element at `index`; an index outside the list keeps it. */
  function RemoveAt<T>(s: seq<T>, index: int): (r: seq<T>)
    ensures 0 <= index < |s| ==> |r| == |s| - 1
    ensures 0 <= index < |s| ==> forall k :: 0 <= k < index ==> r[k] == s[k]
    ensures 0 <= index < |s| ==> forall k :: index <= k < |r| ==> r[k] == s[k + 1]
    ensures !(0 <= index < |s|) ==> r == s
  {
    if 0 <= index < |s| then s[..index] + s[index + 1..] else s
  }

  /** Removing a position loses exactly that element and nothing else. */
  lemma RemoveAtMultiset<T>(s: seq<T>, index: nat)
    requires index < |s|
    ensures multiset(RemoveAt(s, index)) + multiset{s[index]} == multiset(s)
  {
    assert s == s[..index] + [s[index]] + s[index + 1..];
  }

  /** Removing the file just appended gives back the list as it was. */
  lemma RemoveLastAppended<T>(s: seq<T>, x: T)
    ensures RemoveAt(s + [x], |s|) == s
  {
  }

  /** Keeps, in order, the documents whose id differs from `id`. */
  function WithoutId(docs: seq<Doc>, id: nat): (r: seq<Doc>)
    ensures |r| <= |docs|
    ensures forall d :: d in r <==> d in docs && d.id != id
    ensures (forall d :: d in docs ==> d.id != id) ==> r == docs
  {
    if docs == [] then []
    else if docs[0].id == id then WithoutId(docs[1..], id)
    else [docs[0]] + WithoutId(docs[1..], id)
  }

  /** The filter keeps order: filtering a concatenation filters each part
      and keeps them in their places. */
  lemma {:induction false} WithoutIdAppend(a: seq<Doc>, b: seq<Doc>, id: nat)
    ensures WithoutId(a + b, id) == WithoutId(a, id) + WithoutId(b, id)
    decreases |a|
  {
    if a == [] {
      assert a + b == b;
    } else {
      assert (a + b)[1..] == a[1..] + b;
      WithoutIdAppend(a[1..], b, id);
    }
  }

  /** With the id at one position only, the filter removes exactly that
      position. */
  lemma WithoutIdAt(docs: seq<Doc>, k: nat, id: nat)
    requires k < |docs| && docs[k].id == id
    requires forall j :: 0 <= j < |docs| && j != k ==> docs[j].id != id
    ensures WithoutId(docs, id) == RemoveAt(docs, k)
  {
    var a, b := docs[..k], docs[k + 1..];
    assert docs == a + [docs[k]] + b;
    assert forall d :: d in a ==> d.id != id;
    assert forall d :: d in b ==> d.id != id;
    assert WithoutId([docs[k]], id) == [] by {
      assert [docs[k]][1..] == [];
    }
    calc {
      WithoutId(docs, id);
      WithoutId(a + [docs[k]] + b, id);
      { WithoutIdAppend(a + [docs[k]], b, id); }
      WithoutId(a + [docs[k]], id) + WithoutId(b, id);
      { WithoutIdAppend(a, [docs[k]], id); }
      WithoutId(a, id) + WithoutId([docs[k]], id) + WithoutId(b, id);
      a + [] + b;
      { assert a + [] + b == a + b; }
      RemoveAt(docs, k);
    }
  }

  /** The ids of a list of documents, position by position. */
  function Ids(docs: seq<Doc>): (ids: seq<nat>)
    ensures |ids| == |docs|
    ensures forall k :: 0 <= k < |docs| ==> ids[k] == docs[k].id
  {
    seq(|docs|, k requires 0 <= k < |docs| => docs[k].id)
  }

  predicate HasId(docs: seq<Doc>, id: nat) {
    exists d :: d in docs && d.id == id
  }

  /** No id listed for deletion still belongs to a listed document. */
  predicate IdsDisjoint(docs: seq<Doc>, ids: seq<nat>) {
    forall id :: id in ids ==> !HasId(docs, id)
  }
}
