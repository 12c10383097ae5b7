/**
 * Which pages of a document are converted (`getPagesToProcess` in main.go).
 * A positive requested page selects that single 1-based page, if the document has it;
 * anything else selects every page, as zero-based indices in ascending order.
 */
module PageSelection {

  /** The zero-based indices 0, 1, ..., n-1, in that order: an independent definition of "all pages". */
  function Range(n: nat): (r: seq<nat>)
    ensures |r| == n
  {
    if n == 0 then [] else Range(n - 1) + [n - 1]
  }

  lemma {:induction false} RangeAt(n: nat, i: nat)
    requires i < n
    ensures Range(n)[i] == i
  {
    if i < n - 1 {
      RangeAt(n - 1, i);
    }
  }

  /**
   * The indices the program renders for a requested page and a page count.
   * The all-pages branch allocates a slice of `totalPages` elements, which Go refuses for a
   * negative count, hence the precondition.
   */
  function SelectedPages(specificPage: int, totalPages: int): (pages: seq<nat>)
    requires specificPage > 0 || totalPages >= 0
    ensures specificPage > 0 ==> |pages| <= 1
    ensures specificPage <= 0 ==> |pages| == totalPages
  {
    if specificPage > 0 then
      if specificPage > totalPages then [] else [specificPage - 1]
    else
      Range(totalPages)
  }

  /** The three cases the selection distinguishes, stated as what each one yields. */
  lemma SelectedPagesCases(specificPage: int, totalPages: int)
    requires specificPage > 0 || totalPages >= 0
    ensures specificPage <= 0 ==>
      |SelectedPages(specificPage, totalPages)| == totalPages &&
      forall i :: 0 <= i < totalPages ==> SelectedPages(specificPage, totalPages)[i] == i
    ensures 1 <= specificPage <= totalPages ==> SelectedPages(specificPage, totalPages) == [specificPage - 1]
    ensures specificPage > 0 && specificPage > totalPages ==> SelectedPages(specificPage, totalPages) == []
  {
    if specificPage <= 0 {
      forall i | 0 <= i < totalPages
        ensures SelectedPages(specificPage, totalPages)[i] == i
      {
        RangeAt(totalPages, i);
      }
    }
  }

  /**
   * Every selected index names a page of the document, and the indices come in strictly
   * ascending order (so no page is rendered twice).
   */
  lemma SelectedPagesValid(specificPage: int, totalPages: int)
    requires specificPage > 0 || totalPages >= 0
    ensures forall k :: 0 <= k < |SelectedPages(specificPage, totalPages)| ==>
      SelectedPages(specificPage, totalPages)[k] < totalPages
    ensures forall j, k :: 0 <= j < k < |SelectedPages(specificPage, totalPages)| ==>
      SelectedPages(specificPage, totalPages)[j] < SelectedPages(specificPage, totalPages)[k]
  {
    if specificPage <= 0 {
      forall k | 0 <= k < totalPages
        ensures Range(totalPages)[k] == k
      {
        RangeAt(totalPages, k);
      }
    }
  }

  /** `getPagesToProcess`: the all-pages branch fills a fresh array with its own indices. */
  method GetPagesToProcess(specificPage: int, totalPages: int) returns (pages: seq<nat>)
    requires specificPage > 0 || totalPages >= 0
    ensures pages == SelectedPages(specificPage, totalPages)
  {
    if specificPage > 0 {
      if specificPage > totalPages {
        return [];
      }
      return [specificPage - 1];
    }
    var a := new nat[totalPages];
    for i := 0 to totalPages
      invariant a[..i] == Range(i)
    {
      a[i] := i;
      assert a[..i + 1] == a[..i] + [i];
    }
    pages := a[..];
  }
}
