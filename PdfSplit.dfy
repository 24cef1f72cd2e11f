/**
 * The output-naming policy of the "pdf-split" action: how the split-frequency
 * parameter is read, how the name of every split document is formed, and how
 * the source file name loses its extension.
 *
 * The PDF library's split is represented by its result only: the page count
 * of each split document, in the order the library returns them.
 */
module PdfSplit {
  import opened JavaLang

  // ---------------------------------------------------------------------
  // removeExtension / getFilenameSansExt

  /**
   * removeExtension(fileName, extension): a null name passes through; a name
   * that contains the extension is cut at its FIRST occurrence; any other
   * name is returned unchanged.
   */
  function RemoveExtension(fileName: Option<string>, extension: string): (r: Option<string>)
    ensures fileName.None? <==> r.None?
    ensures fileName.Some? ==> r.value <= fileName.value
    ensures fileName.Some? && !Contains(fileName.value, extension) ==> r == fileName
    ensures fileName.Some? && Contains(fileName.value, extension) ==>
      OccursAt(fileName.value, extension, |r.value|) &&
      forall j | 0 <= j < |r.value| :: !OccursAt(fileName.value, extension, j)
  {
    match fileName
    case None => None
    case Some(name) =>
      if Contains(name, extension) then
        var extensionStartsAt := IndexOf(name, extension);
        Some(name[..extensionStartsAt])
      else
        Some(name)
  }

  // ---------------------------------------------------------------------
  // The split frequency

  /** The split-frequency text: "" means 0, anything else goes through `new Integer`. */
  function ParseSplitFrequency(text: string): (r: Result<int, Exception>)
    ensures text == "" ==> r == Ok(0)
    ensures r.Ok? ==> IsInt(r.value)
    ensures r.Err? ==> r.error == NumberFormatException(text)
  {
    if text == "" then Ok(0) else ParseInt(text)
  }

  /**
   * The split-frequency parameter exactly as the action reads it:
   * `options.get(PARAM_SPLIT_FREQUENCY).toString()` dereferences the value,
   * so an unset (null) parameter throws although the parameter is declared
   * optional.
   */
  function SplitFrequencyParameterAsWritten(param: Option<string>): (r: Result<int, Exception>)
    ensures param.None? ==> r == Err(NullPointerException)
    ensures param.Some? ==> r == ParseSplitFrequency(param.value)
  {
    match param
    case None => Err(NullPointerException)
    case Some(text) => ParseSplitFrequency(text)
  }

  /**
   * The split-frequency parameter as the action evidently intends it:
   * unset means 0, one document per page, like the empty text.
   */
  function SplitFrequencyParameter(param: Option<string>): (r: Result<int, Exception>)
    ensures param.None? ==> r == Ok(0)
    ensures param.Some? ==> r == ParseSplitFrequency(param.value)
    ensures r.Ok? ==> IsInt(r.value)
  {
    match param
    case None => Ok(0)
    case Some(text) => ParseSplitFrequency(text)
  }

  // ---------------------------------------------------------------------
  // Reference definition of the output names

  /** The number of pages in a sequence of split documents. */
  function Sum(pageCounts: seq<nat>): nat {
    if pageCounts == [] then 0
    else Sum(pageCounts[..|pageCounts| - 1]) + pageCounts[|pageCounts| - 1]
  }

  /** The first page of the k-th split document (0-based k) in the original document. */
  function BlockStart(pageCounts: seq<nat>, k: nat): (first: int)
    requires k < |pageCounts|
  {
    1 + Sum(pageCounts[..k])
  }

  /** The last page of the k-th split document in the original document. */
  function BlockEnd(pageCounts: seq<nat>, k: nat): (last: int)
    requires k < |pageCounts|
  {
    Sum(pageCounts[..k + 1])
  }

  /**
   * The file name the action gives the k-th split document (0-based k):
   * with a positive frequency `_pgs<first>-<last>` names its page range,
   * otherwise `_pg<k+1>` numbers the documents.
   */
  function OutputName(baseName: string, extension: string, splitFrequency: int,
                      pageCounts: seq<nat>, k: nat): (name: string)
    requires k < |pageCounts|
    ensures baseName <= name
  {
    if splitFrequency > 0 then
      baseName + "_pgs" + IntToString(BlockStart(pageCounts, k)) + "-" +
      IntToString(BlockEnd(pageCounts, k)) + extension
    else
      baseName + "_pg" + IntToString(k + 1) + extension
  }

  /** The names of the first i split documents, in order. */
  function OutputNames(baseName: string, extension: string, splitFrequency: int,
                       pageCounts: seq<nat>, i: nat): (names: seq<string>)
    requires i <= |pageCounts|
    ensures |names| == i
    ensures forall k | 0 <= k < i :: names[k] == OutputName(baseName, extension, splitFrequency, pageCounts, k)
  {
    if i == 0 then []
    else OutputNames(baseName, extension, splitFrequency, pageCounts, i - 1) +
         [OutputName(baseName, extension, splitFrequency, pageCounts, i - 1)]
  }

  lemma {:induction false} SumStep(pageCounts: seq<nat>, k: nat)
    requires k < |pageCounts|
    ensures Sum(pageCounts[..k + 1]) == Sum(pageCounts[..k]) + pageCounts[k]
  {
    assert pageCounts[..k + 1][..k] == pageCounts[..k];
  }

  /** The name one iteration of the loop builds is the reference name of that document. */
  lemma LoopNameIsOutputName(baseName: string, extension: string, splitFrequency: int,
                             pageCounts: seq<nat>, i: nat,
                             pg: string, page: int, pagePlus: string, endPage: int)
    requires i < |pageCounts|
    requires splitFrequency > 0 ==>
      pg == "_pgs" && page == 1 + Sum(pageCounts[..i]) &&
      endPage == Sum(pageCounts[..i + 1]) && pagePlus == "-" + IntToString(endPage)
    requires splitFrequency <= 0 ==> pg == "_pg" && page == i + 1 && pagePlus == ""
    ensures baseName + pg + IntToString(page) + pagePlus + extension ==
            OutputName(baseName, extension, splitFrequency, pageCounts, i)
  {
    var prefix := baseName + pg + IntToString(page);
    if splitFrequency > 0 {
      assert BlockStart(pageCounts, i) == page && BlockEnd(pageCounts, i) == endPage;
      assert prefix + pagePlus == prefix + "-" + IntToString(endPage);
    }
  }

  // ---------------------------------------------------------------------
  // The action

  /**
   * The naming part of `action`: read the split frequency, then walk the
   * split documents keeping the counters `page` and `endPage`, and name each
   * document `fileNameSansExt + pg + page + pagePlus + FILE_EXTENSION`.
   * Returns the names in the order the documents are saved, or the exception
   * that reading the frequency throws.
   */
  method Action(fileName: Option<string>, extension: string, splitFrequencyParam: Option<string>,
                pageCounts: seq<nat>)
    returns (result: Result<seq<string>, Exception>)
    ensures SplitFrequencyParameter(splitFrequencyParam).Err? ==>
      result == Err(SplitFrequencyParameter(splitFrequencyParam).error)
    ensures SplitFrequencyParameter(splitFrequencyParam).Ok? ==>
      result.Ok? && |result.value| == |pageCounts| &&
      forall k | 0 <= k < |pageCounts| ::
        result.value[k] == OutputName(ConcatOperand(RemoveExtension(fileName, extension)), extension,
                                      SplitFrequencyParameter(splitFrequencyParam).value, pageCounts, k)
  {
    var frequency := SplitFrequencyParameter(splitFrequencyParam);
    if frequency.Err? {
      return Err(frequency.error);
    }
    var splitFrequency := frequency.value;
    // getFilenameSansExt is evaluated in every iteration and yields the same
    // name each time; it is evaluated once here.
    var fileNameSansExt := RemoveExtension(fileName, extension);
    var baseName := ConcatOperand(fileNameSansExt);

    var page: int := 1;
    var endPage: int := 0;
    var names: seq<string> := [];
    var i := 0;
    while i < |pageCounts|
      invariant 0 <= i <= |pageCounts|
      invariant names == OutputNames(baseName, extension, splitFrequency, pageCounts, i)
      invariant splitFrequency > 0 ==> page == 1 + Sum(pageCounts[..i]) && endPage == Sum(pageCounts[..i])
      invariant splitFrequency <= 0 ==> page == i + 1 && endPage == 0
    {
      var pagePlus := "";
      var pg := "_pg";
      var pagesInPDF := pageCounts[i];
      if splitFrequency > 0 {
        SumStep(pageCounts, i);
        endPage := endPage + pagesInPDF;
        pagePlus := "-" + IntToString(endPage);
        pg := "_pgs";
      }
      var name := baseName + pg + IntToString(page) + pagePlus + extension;
      LoopNameIsOutputName(baseName, extension, splitFrequency, pageCounts, i, pg, page, pagePlus, endPage);
      names := names + [name];
      if splitFrequency > 0 {
        // page = (page++) + pagesInPDF: the operand reads the old page, the
        // increment happens, and the assignment then overwrites it.
        var operand := page;
        page := page + 1;
        page := operand + pagesInPDF;
      } else {
        page := page + 1;
      }
      i := i + 1;
    }
    return Ok(names);
  }
}
