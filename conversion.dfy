/**
 * The files one PDF's conversion attempts to write (`processPDF` and `convertPage` in main.go):
 * one `page_NNN.png` per selected page, in the order the pages are selected. A page whose
 * rendering or saving fails, or a PDF that cannot be opened or whose directory cannot be created,
 * writes nothing; those failures, and rendering, cropping pixels, resampling and encoding, are not
 * modelled here, only the names.
 */
module Conversion {

  import opened Wrappers
  import opened PageSelection
  import opened PageNames
  import opened CommandLine

  /** The file names attempted for a document of `totalPages` pages when `specificPage` is requested. */
  function PageFiles(specificPage: int, totalPages: int): (files: seq<string>)
    requires specificPage > 0 || totalPages >= 0
    ensures specificPage > 0 ==> |files| <= 1
    ensures specificPage <= 0 ==> |files| == totalPages
    ensures |files| == |SelectedPages(specificPage, totalPages)|
    ensures forall k :: 0 <= k < |files| ==> files[k] == PageFileName(SelectedPages(specificPage, totalPages)[k])
  {
    var pages := SelectedPages(specificPage, totalPages);
    seq(|pages|, k requires 0 <= k < |pages| => PageFileName(pages[k]))
  }

  /**
   * No two selected pages write the same file, and each file is the one named after its page:
   * for the all-pages request the k-th file is named after page k + 1.
   */
  lemma PageFilesDistinct(specificPage: int, totalPages: int)
    requires specificPage > 0 || totalPages >= 0
    ensures forall j, k :: 0 <= j < k < |PageFiles(specificPage, totalPages)| ==>
      PageFiles(specificPage, totalPages)[j] != PageFiles(specificPage, totalPages)[k]
    ensures specificPage <= 0 ==>
      (|PageFiles(specificPage, totalPages)| == totalPages &&
       forall k :: 0 <= k < totalPages ==> PageFiles(specificPage, totalPages)[k] == PageFileName(k))
  {
    var pages := SelectedPages(specificPage, totalPages);
    var files := PageFiles(specificPage, totalPages);
    SelectedPagesValid(specificPage, totalPages);
    SelectedPagesCases(specificPage, totalPages);
    forall j, k | 0 <= j < k < |files|
      ensures files[j] != files[k]
    {
      if files[j] == files[k] {
        PageFileNameInjective(pages[j], pages[k]);
      }
    }
  }

  /** A 3-page PDF asked for page 2 writes exactly one file, `page_002.png`. */
  lemma ExampleSecondOfThreePages()
    ensures PageFiles(2, 3) == ["page_002.png"]
  {
    ExampleSecondPageFileName();
  }

  /**
   * Whatever the command line holds, the validated page can be given to the selection for any
   * document; a usable page argument writes at most one file per document, and every file written
   * is named after a page the document has.
   */
  lemma CommandLineSelectsExistingPages(args: seq<string>, atoi: string -> Option<int>, totalPages: nat)
    ensures var page := ParseArgs(args, atoi);
      (IsPageArgument(args, atoi) ==> |PageFiles(page, totalPages)| <= 1) &&
      (!IsPageArgument(args, atoi) ==> |PageFiles(page, totalPages)| == totalPages) &&
      forall name :: name in PageFiles(page, totalPages) ==>
        exists pageNum :: 0 <= pageNum < totalPages && name == PageFileName(pageNum)
  {
    var page := ParseArgs(args, atoi);
    var pages := SelectedPages(page, totalPages);
    SelectedPagesValid(page, totalPages);
    SelectedPagesCases(page, totalPages);
    forall name | name in PageFiles(page, totalPages)
      ensures exists pageNum :: 0 <= pageNum < totalPages && name == PageFileName(pageNum)
    {
      var k :| 0 <= k < |pages| && PageFiles(page, totalPages)[k] == name;
      assert pages[k] < totalPages;
    }
  }
}
