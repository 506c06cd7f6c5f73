/** The image slideshow shown over a request page: whether it renders, which
    stored document it shows, and the wrap-around Prev/Next buttons. */
module Slideshow {
  import opened Wrappers
  import opened Text
  import opened Documents

  // ---------------------------------------------------------------------
  // Image file names
  // ---------------------------------------------------------------------

  /** The image extensions, written in lower case. */
  predicate IsImageExtension(ext: string) {
    ext == "jpg" || ext == "jpeg" || ext == "png" || ext == "gif" || ext == "webp"
  }

  /** The name ends with a dot followed by `ext`, letters compared without
      regard to case. */
  predicate EndsWithDot(fileName: string, ext: string) {
    EndsWithIgnoreCase(fileName, "." + ext)
  }

  /** The name ends with a dot and one of the five image extensions, in
      any mix of upper and lower case. */
  predicate IsImageFile(fileName: string)
    ensures IsImageFile(fileName) <==>
      Extension(fileName).Some? && IsImageExtension(Lower(Extension(fileName).value))
  {
    EndsWithDotExtension(fileName, "jpg");
    EndsWithDotExtension(fileName, "jpeg");
    EndsWithDotExtension(fileName, "png");
    EndsWithDotExtension(fileName, "gif");
    EndsWithDotExtension(fileName, "webp");
    || EndsWithDot(fileName, "jpg")
    || EndsWithDot(fileName, "jpeg")
    || EndsWithDot(fileName, "png")
    || EndsWithDot(fileName, "gif")
    || EndsWithDot(fileName, "webp")
  }

  /** Position of the last '.' in `s`, if any. */
  function LastDot(s: string): (r: Option<nat>)
    ensures r.None? ==> forall k :: 0 <= k < |s| ==> s[k] != '.'
    ensures r.Some? ==> r.value < |s| && s[r.value] == '.'
    ensures r.Some? ==> forall k :: r.value < k < |s| ==> s[k] != '.'
  {
    if s == [] then None
    else if s[|s| - 1] == '.' then Some(|s| - 1)
    else LastDot(s[..|s| - 1])
  }

  /** The extension of a file name: what follows its last dot. */
  function Extension(fileName: string): Option<string>
  {
    match LastDot(fileName)
    case None => None
    case Some(p) => Some(fileName[p + 1..])
  }

  predicate NoDot(e: string) { forall k :: 0 <= k < |e| ==> e[k] != '.' }

  lemma LowerIsDot(c: char)
    ensures LowerAscii(c) == '.' <==> c == '.'
  {
  }

  /** The last dot is the only dot from its position on. */
  lemma LastDotAt(s: string, p: nat)
    requires p < |s| && s[p] == '.'
    requires forall k :: p < k < |s| ==> s[k] != '.'
    ensures LastDot(s) == Some(p)
  {
  }

  /** A name ending in "." + e (ignoring case) has its last dot just before
      that suffix. */
  lemma SuffixDot(fileName: string, e: string)
    requires NoDot(e)
    requires EndsWithIgnoreCase(fileName, "." + e)
    ensures LastDot(fileName) == Some(|fileName| - |e| - 1)
  {
    var n, m := |fileName|, |e|;
    var tail := fileName[n - m - 1..];
    var low := Lower(tail);
    assert low == "." + e;
    assert |low| == m + 1;
    assert LowerAscii(tail[0]) == '.' by {
      assert low[0] == ("." + e)[0];
    }
    LowerIsDot(tail[0]);
    assert fileName[n - m - 1] == '.';
    assert low[1..] == e;
    forall k | n - m - 1 < k < n ensures fileName[k] != '.' {
      var j := k - (n - m - 1);
      assert low[j] == low[1..][j - 1];
      assert tail[j] == fileName[k];
      LowerIsDot(tail[j]);
    }
    LastDotAt(fileName, n - m - 1);
  }

  /** The text after that dot lower-cases to e. */
  lemma SuffixLower(fileName: string, e: string)
    requires EndsWithIgnoreCase(fileName, "." + e)
    ensures Lower(fileName[|fileName| - |e|..]) == e
  {
    var n, m := |fileName|, |e|;
    var tail := fileName[n - m - 1..];
    var low := Lower(tail);
    var rest := fileName[n - m..];
    var lr := Lower(rest);
    forall k | 0 <= k < m ensures lr[k] == e[k] {
      assert rest[k] == tail[k + 1];
      assert low[k + 1] == ("." + e)[k + 1] == e[k];
    }
  }

  lemma EndsWithGivesExtension(fileName: string, e: string)
    requires NoDot(e)
    requires EndsWithIgnoreCase(fileName, "." + e)
    ensures Extension(fileName) == Some(fileName[|fileName| - |e|..])
    ensures Lower(fileName[|fileName| - |e|..]) == e
  {
    SuffixDot(fileName, e);
    SuffixLower(fileName, e);
  }

  /** A name whose extension lower-cases to e ends in "." + e, ignoring case. */
  lemma ExtensionGivesEndsWith(fileName: string, e: string)
    requires Extension(fileName).Some? && Lower(Extension(fileName).value) == e
    ensures EndsWithIgnoreCase(fileName, "." + e)
  {
    var p := LastDot(fileName).value;
    var n, m := |fileName|, |e|;
    assert n - p - 1 == m;
    var tail := fileName[n - m - 1..];
    assert p == n - m - 1;
    forall k | 0 <= k < m + 1 ensures Lower(tail)[k] == ("." + e)[k] {
      if k > 0 {
        assert tail[k] == fileName[p + 1..][k - 1];
        assert Lower(fileName[p + 1..])[k - 1] == e[k - 1];
      }
    }
  }

  lemma EndsWithDotExtension(fileName: string, e: string)
    requires NoDot(e)
    ensures EndsWithDot(fileName, e) <==>
      Extension(fileName).Some? && Lower(Extension(fileName).value) == e
  {
    if EndsWithIgnoreCase(fileName, "." + e) {
      EndsWithGivesExtension(fileName, e);
    }
    if Extension(fileName).Some? && Lower(Extension(fileName).value) == e {
      ExtensionGivesEndsWith(fileName, e);
    }
  }

  // ---------------------------------------------------------------------
  // Prev / Next
  // ---------------------------------------------------------------------

  /** The Prev button: from the first document it wraps to the last. */
  function Prev(index: int, count: int): (r: int)
    ensures 0 <= index < count ==> 0 <= r < count
    ensures 0 < index < count ==> r < index
  {
    if index == 0 then count - 1 else index - 1
  }

  /** The Next button: from the last document it wraps to the first. */
  function Next(index: int, count: int): (r: int)
    ensures 0 <= index < count ==> 0 <= r < count
    ensures 0 <= index < count - 1 ==> r > index
  {
    if index == count - 1 then 0 else index + 1
  }

  /** Prev undoes Next and Next undoes Prev on every valid position. */
  lemma PrevNextInverse(index: int, count: int)
    requires 0 <= index < count
    ensures Prev(Next(index, count), count) == index
    ensures Next(Prev(index, count), count) == index
  {
  }

  /** The position reached after pressing Next `k` times. */
  function Advance(index: int, count: int, k: nat): int
  {
    if k == 0 then index else Next(Advance(index, count, k - 1), count)
  }

  lemma {:induction false} AdvanceCompose(index: int, count: int, a: nat, b: nat)
    ensures Advance(index, count, a + b) == Advance(Advance(index, count, a), count, b)
  {
    if b > 0 {
      AdvanceCompose(index, count, a, b - 1);
    }
  }

  lemma {:induction false} AdvanceStraight(index: int, count: int, k: nat)
    requires 0 <= index && index + k < count
    ensures Advance(index, count, k) == index + k
  {
    if k > 0 {
      AdvanceStraight(index, count, k - 1);
    }
  }

  /** Pressing Next `count` times comes back to the starting document. */
  lemma AdvanceFullCycle(index: int, count: int)
    requires 0 <= index < count
    ensures Advance(index, count, count as nat) == index
  {
    var toLast := count - 1 - index;
    AdvanceStraight(index, count, toLast);
    assert Advance(index, count, toLast + 1) == 0;
    AdvanceCompose(index, count, toLast + 1, index);
    if index > 0 {
      AdvanceStraight(0, count, index);
    }
  }

  // ---------------------------------------------------------------------
  // What the modal renders.
  // ---------------------------------------------------------------------

  /** Nothing; the document at the preview index (as an image or by name);
      or the crash of reading a field of `documents[previewIndex]` when that
      index lies outside the list. */
  datatype ModalView = Closed | Showing(doc: Doc, asImage: bool) | Broken

  function Modal(documents: seq<Doc>, previewIndex: Option<int>): (v: ModalView)
    ensures v.Closed? <==> previewIndex.None?
    ensures v.Showing? <==> previewIndex.Some? && 0 <= previewIndex.value < |documents|
    ensures v.Showing? ==> v.doc == documents[previewIndex.value]
    ensures v.Showing? ==> v.asImage == IsImageFile(v.doc.fileName)
  {
    match previewIndex
    case None => Closed
    case Some(i) =>
      if 0 <= i < |documents| then Showing(documents[i], IsImageFile(documents[i].fileName))
      else Broken
  }
}
