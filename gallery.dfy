/** The list of scanned pages and the three buttons that act on all of them
    (save all, export as PDF, clear all). A capture appends a page and enables
    the buttons; removing a page is JavaScript's `splice(index, 1)`; the
    buttons are disabled again once the list is empty. Pages are the JPEG data
    URLs the camera canvas produced, kept here as opaque strings. */
module Scans {

  /** Where `splice(index, 1)` starts on a list of length len: a negative index
      counts from the end (and stops at the front), a large one stops at the
      end. */
  function SpliceStart(len: nat, index: int): (k: nat)
    ensures k <= len
    ensures 0 <= index < len ==> k == index
    ensures -(len as int) <= index < 0 ==> k == len + index
    ensures index >= len ==> k == len
    ensures index < -(len as int) ==> k == 0
  {
    if index < 0 then (if len + index < 0 then 0 else len + index)
    else if index < len then index
    else len
  }

  /** The list after `splice(index, 1)`: the element at the start position is
      gone when there is one, and everything after it moves up by one. */
  function Spliced<T>(s: seq<T>, index: int): (r: seq<T>)
    ensures |r| == if SpliceStart(|s|, index) < |s| then |s| - 1 else |s|
    ensures forall j :: 0 <= j < |r| ==>
      r[j] == if j < SpliceStart(|s|, index) then s[j] else s[j + 1]
  {
    var k := SpliceStart(|s|, index);
    if k < |s| then s[..k] + s[k + 1..] else s
  }

  // ---------------------------------------------------------------------
  // Properties of the removal
  // ---------------------------------------------------------------------

  /** A non-empty list loses exactly one page unless the index is past its
      end, which leaves it as it is; an empty list stays empty. */
  lemma SplicedRemovesOne<T>(s: seq<T>, index: int)
    ensures |s| > 0 && index < |s| <==> |Spliced(s, index)| == |s| - 1
    ensures |s| == 0 || index >= |s| <==> Spliced(s, index) == s
  {
  }

  /** Removing a page keeps every other page: the pages of the old list are
      those of the new one plus the page removed. */
  lemma SplicedKeepsOthers<T>(s: seq<T>, index: int)
    requires 0 <= index < |s|
    ensures multiset(Spliced(s, index)) + multiset{s[index]} == multiset(s)
  {
    var r := Spliced(s, index);
    assert s == r[..index] + [s[index]] + r[index..];
  }

  /** The remove button of page index removes exactly that page. */
  lemma SplicedAtIndex<T>(s: seq<T>, index: int)
    requires 0 <= index < |s|
    ensures Spliced(s, index) == s[..index] + s[index + 1..]
  {
  }

  /** A negative index counts from the end, so -1 removes the last page, and
      one reaching before the front removes the first. */
  lemma SplicedFromEnd<T>(s: seq<T>, index: int)
    requires index < 0
    ensures -|s| <= index ==> Spliced(s, index) == Spliced(s, |s| + index)
    ensures index < -|s| ==> Spliced(s, index) == Spliced(s, 0)
  {
  }

  /** Removing the page just captured gives back the list as it was. */
  lemma RemoveLastCapture<T>(s: seq<T>, page: T)
    ensures Spliced(s + [page], |s|) == s
    ensures Spliced(s + [page], -1) == s
  {
    assert (s + [page])[..|s|] == s;
  }

  // ---------------------------------------------------------------------
  // The page list and its buttons
  // ---------------------------------------------------------------------

  class Gallery {
    var scannedImages: seq<string>
    var batchSaveDisabled: bool
    var exportPdfDisabled: bool
    var clearAllDisabled: bool

    /** The three buttons are disabled exactly when there are no pages. */
    ghost predicate Valid()
      reads this
    {
      batchSaveDisabled == exportPdfDisabled == clearAllDisabled == (|scannedImages| == 0)
    }

    /** The page as it loads: no pages, and nothing to save, export or clear. */
    constructor ()
      ensures scannedImages == [] && Valid()
    {
      scannedImages := [];
      batchSaveDisabled, exportPdfDisabled, clearAllDisabled := true, true, true;
    }

    /** The end of captureImage: the new page is appended and the buttons are
        enabled. */
    method AddScan(dataUrl: string)
      modifies this
      ensures scannedImages == old(scannedImages) + [dataUrl]
      ensures !batchSaveDisabled && !exportPdfDisabled && !clearAllDisabled
      ensures Valid()
    {
      scannedImages := scannedImages + [dataUrl];
      batchSaveDisabled := false;
      exportPdfDisabled := false;
      clearAllDisabled := false;
    }

    /** removeImage: splice the page out; once the list is empty the buttons
        are disabled, otherwise they are left as they were. */
    method RemoveImage(index: int)
      modifies this
      ensures scannedImages == Spliced(old(scannedImages), index)
      ensures |scannedImages| == 0 ==> batchSaveDisabled && exportPdfDisabled && clearAllDisabled
      ensures |scannedImages| != 0 ==>
        batchSaveDisabled == old(batchSaveDisabled) && exportPdfDisabled == old(exportPdfDisabled)
        && clearAllDisabled == old(clearAllDisabled)
      ensures old(Valid()) ==> Valid()
    {
      scannedImages := Spliced(scannedImages, index);
      if |scannedImages| == 0 {
        batchSaveDisabled := true;
        exportPdfDisabled := true;
        clearAllDisabled := true;
      }
    }

    /** clearAllScans: when the user confirms, every page is dropped and the
        buttons are disabled; otherwise nothing changes. */
    method ClearAllScans(confirmed: bool)
      modifies this
      ensures confirmed ==> scannedImages == [] && batchSaveDisabled && exportPdfDisabled && clearAllDisabled
      ensures !confirmed ==> unchanged(this)
      ensures old(Valid()) ==> Valid()
    {
      if confirmed {
        scannedImages := [];
        batchSaveDisabled := true;
        exportPdfDisabled := true;
        clearAllDisabled := true;
      }
    }
  }
}
