/** The page selection of the PDF loader of the text-recognition package:
    which page indices of a document are rendered, and the name attached to
    each page. Opening the document, rendering the images and extracting
    the text lines are left to the caller; only the document's page count
    enters. */
module PdfLoad {
  import opened Wrappers
  import opened Strings
  import opened Paths
  import opened Ranges
  import opened Decimal

  /** `get_name_from_path(path)`: the base name up to its first dot. */
  function NameFromPath(path: string): (name: string)
    ensures '.' !in name && '/' !in name
    ensures |name| <= |BaseName(path)| && name == BaseName(path)[..|name|]
    ensures |name| < |BaseName(path)| ==> BaseName(path)[|name|] == '.'
  {
    SplitFirst(BaseName(path), '.');
    Split(BaseName(path), '.')[0]
  }

  /** The pages `load_pdf` selects and the name it gives each of them. */
  datatype PageSelection = PageSelection(indices: seq<int>, names: seq<string>)

  /** A Python integer argument that may be `None`: it is truthy when given
      and non-zero. */
  predicate Truthy(x: Option<int>)
  {
    x.Some? && x.value != 0
  }

  /** The first page: a truthy start page must lie in `[0, docLen)`, a
      falsy one becomes 0. */
  function StartPage(docLen: nat, startPage: Option<int>): (r: Result<nat>)
    ensures r.Success? <==> !Truthy(startPage) || 0 <= startPage.value < docLen
    ensures r.Success? && Truthy(startPage) ==> r.value == startPage.value
    ensures !Truthy(startPage) ==> r == Success(0)
  {
    if Truthy(startPage) then
      if startPage.value < docLen && startPage.value >= 0 then Success(startPage.value as nat)
      else Failure("Start page must be between 0 and " + NatToString(docLen))
    else Success(0)
  }

  /** The end of the selection: a truthy page limit must not be negative
      and caps the selection at `start + maxPages` pages; a falsy one leaves
      it at the end of the document. */
  function LastPage(docLen: nat, start: nat, maxPages: Option<int>): (r: Result<int>)
    ensures r.Success? <==> !Truthy(maxPages) || maxPages.value >= 0
    ensures !Truthy(maxPages) ==> r == Success(docLen)
    ensures r.Success? && Truthy(maxPages) ==>
      && r.value <= docLen && r.value <= start + maxPages.value
      && (r.value == docLen || r.value == start + maxPages.value)
  {
    if Truthy(maxPages) then
      if maxPages.value >= 0 then
        Success(if start + maxPages.value < docLen then start + maxPages.value else docLen)
      else Failure("Max pages must be greater than 0")
    else Success(docLen)
  }

  /** The page indices and names of `load_pdf(path, max_pages, start_page)`
      for a document of `docLen` pages; a failed assertion is a `Failure`. */
  function LoadPdf(path: string, docLen: nat, maxPages: Option<int>, startPage: Option<int>): (r: Result<PageSelection>)
    ensures r.Success? ==> |r.value.names| == |r.value.indices|
  {
    match StartPage(docLen, startPage)
    case Failure(e) => Failure(e)
    case Success(start) =>
      match LastPage(docLen, start, maxPages)
      case Failure(e) => Failure(e)
      case Success(last) =>
        var indices := Range(start, last);
        Success(PageSelection(indices, seq(|indices|, _ => NameFromPath(path))))
  }

  /** `load_pdf` succeeds exactly when a truthy start page lies in the
      document and a truthy page limit is not negative. */
  lemma LoadPdfSucceedsIff(path: string, docLen: nat, maxPages: Option<int>, startPage: Option<int>)
    ensures LoadPdf(path, docLen, maxPages, startPage).Success? <==>
      && (Truthy(startPage) ==> 0 <= startPage.value < docLen)
      && (Truthy(maxPages) ==> maxPages.value >= 0)
  {
  }

  /** The selected pages are consecutive, start at the requested page (0
      when none is requested), lie in the document, number at most the page
      limit when one is given, and reach the end of the document when there
      is no limit or the limit runs past it;
      every page has the name of the file. */
  lemma LoadPdfSelection(path: string, docLen: nat, maxPages: Option<int>, startPage: Option<int>)
    requires LoadPdf(path, docLen, maxPages, startPage).Success?
    ensures var sel := LoadPdf(path, docLen, maxPages, startPage).value;
      var start := if Truthy(startPage) then startPage.value else 0;
      && (forall k :: 0 <= k < |sel.indices| ==> sel.indices[k] == start + k)
      && (forall k :: 0 <= k < |sel.indices| ==> 0 <= sel.indices[k] < docLen)
      && (Truthy(maxPages) ==> |sel.indices| <= maxPages.value)
      && (Truthy(maxPages) && start + maxPages.value <= docLen ==> |sel.indices| == maxPages.value)
      && (Truthy(maxPages) && start + maxPages.value > docLen ==> |sel.indices| == docLen - start)
      && (!Truthy(maxPages) ==> |sel.indices| == docLen - start)
      && |sel.names| == |sel.indices|
      && (forall k :: 0 <= k < |sel.names| ==> sel.names[k] == NameFromPath(path))
  {
    var start := StartPage(docLen, startPage).value;
    var last := LastPage(docLen, start, maxPages).value;
    assert LoadPdf(path, docLen, maxPages, startPage).value.indices == Range(start, last);
  }
}
