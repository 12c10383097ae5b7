/**
 * Picking the input files and naming their output directories: the filter in `findPDFs` and the
 * base-name computation in `processPDF` (main.go), with the two `path/filepath` functions they
 * rely on, `Ext` and `Base`, for the slash-separated paths of a Unix system.
 */
module PdfFiles {

  /** A directory entry as `os.ReadDir` reports it: its name and whether it is a directory. */
  datatype DirEntry = DirEntry(name: string, isDir: bool)

  const Separator: char := '/'

  predicate HasSuffix(s: string, suffix: string)
  {
    |suffix| <= |s| && s[|s| - |suffix|..] == suffix
  }

  /**
   * `filepath.Ext`: the suffix of `path` that starts at the last dot of its final element, or
   * empty when that element has no dot.
   */
  function Ext(path: string): (ext: string)
    ensures HasSuffix(path, ext)
    ensures ext != [] ==> ext[0] == '.' && '.' !in ext[1..] && Separator !in ext
    ensures ext == [] ==> forall i :: 0 <= i < |path| && path[i] == '.' ==> Separator in path[i..]
  {
    if path == [] || path[|path| - 1] == Separator then
      []
    else if path[|path| - 1] == '.' then
      ['.']
    else
      var init := Ext(path[..|path| - 1]);
      if init == [] then [] else init + [path[|path| - 1]]
  }

  /** A path whose final element ends in a dot followed by dot-free `tail` has extension "." + `tail`. */
  lemma {:induction false} ExtOfDottedTail(head: string, tail: string)
    requires '.' !in tail && Separator !in tail
    ensures Ext(head + ['.'] + tail) == ['.'] + tail
  {
    var path := head + ['.'] + tail;
    if tail != [] {
      var init := tail[..|tail| - 1];
      assert path[..|path| - 1] == head + ['.'] + init;
      ExtOfDottedTail(head, init);
      assert tail == init + [tail[|tail| - 1]];
    }
  }

  /**
   * The extension test of `findPDFs` is exactly "the name ends in `.pdf`": case-sensitive, so
   * `report.PDF` is not picked up.
   */
  lemma PdfExtensionIffSuffix(name: string)
    ensures Ext(name) == ".pdf" <==> HasSuffix(name, ".pdf")
  {
    if HasSuffix(name, ".pdf") {
      var head := name[..|name| - 4];
      assert name == head + ['.'] + "pdf";
      ExtOfDottedTail(head, "pdf");
    }
  }

  lemma UpperCasePdfIsSkipped()
    ensures Ext("report.PDF") != ".pdf"
  {
    PdfExtensionIffSuffix("report.PDF");
  }

  predicate IsPdfEntry(entry: DirEntry)
  {
    !entry.isDir && Ext(entry.name) == ".pdf"
  }

  /** The names `findPDFs` keeps: those of the non-directory entries with extension `.pdf`, in order. */
  function PdfNames(entries: seq<DirEntry>): (names: seq<string>)
    ensures |names| <= |entries|
  {
    if entries == [] then
      []
    else
      var last := entries[|entries| - 1];
      PdfNames(entries[..|entries| - 1]) + (if IsPdfEntry(last) then [last.name] else [])
  }

  /** Filtering a listing in two parts and joining the results is filtering it whole: order is kept. */
  lemma {:induction false} PdfNamesAppend(front: seq<DirEntry>, back: seq<DirEntry>)
    ensures PdfNames(front + back) == PdfNames(front) + PdfNames(back)
  {
    if back != [] {
      var init := back[..|back| - 1];
      assert (front + back)[..|front + back| - 1] == front + init;
      PdfNamesAppend(front, init);
    } else {
      assert front + back == front;
    }
  }

  /** A name is kept exactly when some non-directory entry carries it and it ends in `.pdf`. */
  lemma {:induction false} PdfNamesMembership(entries: seq<DirEntry>, name: string)
    ensures name in PdfNames(entries) <==>
      exists entry :: entry in entries && !entry.isDir && entry.name == name && HasSuffix(name, ".pdf")
  {
    PdfExtensionIffSuffix(name);
    if entries != [] {
      var init, last := entries[..|entries| - 1], entries[|entries| - 1];
      assert entries == init + [last];
      PdfNamesMembership(init, name);
      assert forall entry :: entry in entries <==> entry in init || entry == last;
    }
  }

  /** `findPDFs` after the directory has been read: append each matching name in turn. */
  method FindPdfs(entries: seq<DirEntry>) returns (pdfFiles: seq<string>)
    ensures pdfFiles == PdfNames(entries)
  {
    pdfFiles := [];
    for i := 0 to |entries|
      invariant pdfFiles == PdfNames(entries[..i])
    {
      var entry := entries[i];
      assert entries[..i + 1][..i] == entries[..i];
      if !entry.isDir && Ext(entry.name) == ".pdf" {
        pdfFiles := pdfFiles + [entry.name];
      }
    }
    assert entries[..|entries|] == entries;
  }

  /** `path` without its trailing separators. */
  function TrimTrailingSeparators(path: string): (trimmed: string)
    ensures |trimmed| <= |path| && trimmed == path[..|trimmed|]
    ensures trimmed != [] ==> trimmed[|trimmed| - 1] != Separator
  {
    if path != [] && path[|path| - 1] == Separator then TrimTrailingSeparators(path[..|path| - 1]) else path
  }

  /** The part of `path` after its last separator: all of it when it has none. */
  function LastElement(path: string): (element: string)
    ensures HasSuffix(path, element) && Separator !in element
    ensures Separator !in path ==> element == path
  {
    if path == [] || path[|path| - 1] == Separator then [] else LastElement(path[..|path| - 1]) + [path[|path| - 1]]
  }

  /**
   * `filepath.Base`: the last element of `path`, trailing separators ignored; "." for the empty
   * path and the separator itself for a path of separators only. A single path element, such as a
   * directory entry name, is its own base.
   */
  function Base(path: string): (base: string)
    ensures base != []
    ensures path == [] ==> base == "."
    ensures path != [] && Separator !in path ==> base == path
    ensures path != [] && (forall i :: 0 <= i < |path| ==> path[i] == Separator) ==> base == [Separator]
  {
    if path == [] then
      "."
    else
      var trimmed := TrimTrailingSeparators(path);
      if trimmed == [] then [Separator] else LastElement(trimmed)
  }

  /**
   * The output directory of a PDF (`baseName` in `processPDF`): the name without its extension.
   * For a directory entry name, putting the extension back gives the name again, unless nothing
   * precedes the extension, in which case the directory is ".".
   */
  function OutputDir(pdfFile: string): (dir: string)
    ensures Separator !in pdfFile && |Ext(pdfFile)| < |pdfFile| ==> dir + Ext(pdfFile) == pdfFile
    ensures |Ext(pdfFile)| == |pdfFile| ==> dir == "."
  {
    var stem := pdfFile[..|pdfFile| - |Ext(pdfFile)|];
    assert Separator !in pdfFile ==> Separator !in stem by {
      if Separator !in pdfFile {
        forall i | 0 <= i < |stem| ensures stem[i] != Separator {
          assert stem[i] == pdfFile[i];
        }
      }
    }
    Base(stem)
  }

  /**
   * For a directory entry name ending in `.pdf` other than `.pdf` itself, the output directory is
   * what precedes the extension: appending `.pdf` to it gives the name back.
   */
  lemma OutputDirRoundTrip(name: string)
    requires Separator !in name && HasSuffix(name, ".pdf") && name != ".pdf"
    ensures OutputDir(name) + ".pdf" == name
  {
    PdfExtensionIffSuffix(name);
  }

  /** Distinct kept names other than `.pdf` give distinct output directories. */
  lemma OutputDirInjective(a: string, b: string)
    requires Separator !in a && HasSuffix(a, ".pdf") && a != ".pdf"
    requires Separator !in b && HasSuffix(b, ".pdf") && b != ".pdf"
    requires OutputDir(a) == OutputDir(b)
    ensures a == b
  {
    OutputDirRoundTrip(a);
    OutputDirRoundTrip(b);
  }

  /** A file named just `.pdf` has an empty stem, and `filepath.Base` turns that into ".". */
  lemma BarePdfNameWritesIntoCurrentDirectory()
    ensures OutputDir(".pdf") == "."
  {
    PdfExtensionIffSuffix(".pdf");
  }

  /**
   * The one exception to injectivity: `.pdf` and `..pdf` are both kept and both write into ".",
   * so the pages of the later one overwrite those of the earlier. Likewise `...pdf` writes into
   * the parent directory "..".
   */
  lemma BareAndDotPdfShareDirectory()
    ensures ".pdf" != "..pdf" && Ext(".pdf") == ".pdf" && Ext("..pdf") == ".pdf"
    ensures OutputDir(".pdf") == OutputDir("..pdf") == "."
    ensures OutputDir("...pdf") == ".."
  {
    PdfExtensionIffSuffix(".pdf");
    PdfExtensionIffSuffix("..pdf");
    PdfExtensionIffSuffix("...pdf");
    OutputDirRoundTrip("..pdf");
    OutputDirRoundTrip("...pdf");
  }
}
