# PDF split action: output naming

This project models the naming policy of the Alfresco PDF toolkit's
`pdf-split` action (`PDFSplitActionExecuter`) in Dafny, and proves properties
of it. The action splits a PDF into several documents, saves each one in a
staging directory and uploads it to a destination folder. The PDF library
does the splitting. The action's own logic, which is what is modelled here,
has three parts:

- **Reading the split frequency.** The text parameter `split-frequency` is
  read as an int. The empty text means 0, and any other text goes through
  `new Integer(text)`, which throws `NumberFormatException` on bad input.
- **Naming the split documents.** A loop walks the split documents with two
  counters, `page` (starting at 1) and `endPage` (starting at 0). Each
  document is saved as `fileNameSansExt + pg + page + pagePlus + FILE_EXTENSION`.
  - With a positive frequency, the tag is `_pgs<first>-<last>`. `endPage`
    accumulates the page counts, so `<last>` is the running total.
  - With a positive frequency, `page` is then updated by
    `page = (page++) + pagesInPDF`. In Java the operand reads the old
    `page`, the increment happens, and then the assignment overwrites it.
    The net effect is `page + pagesInPDF`, so every range starts one past
    the previous one's end.
  - Otherwise the tag is `_pg<i>`, with `i` counting documents from 1.
- **`removeExtension`.** The source file name is cut at the FIRST occurrence
  of the extension. A null name passes through unchanged. A name without the
  extension is returned unchanged. So `a.pdf.b.pdf` becomes `a`, and an empty
  extension removes the whole name.

Files:

- `JavaLang.dfy` (module `JavaLang`) models the java.lang behaviour the
  action relies on:
  - null references as `Option`;
  - exceptions as `Result`;
  - the int range;
  - `Integer.toString` and `Integer.parseInt`, including the signs and
    leading zeros `Integer.parseInt` accepts;
  - `String.indexOf` and `String.contains`;
  - `"" + null` rendering as `"null"`.
- `PdfSplit.dfy` (module `PdfSplit`) holds the action's logic:
  - `RemoveExtension`;
  - the frequency reading, both as written and corrected (see Findings);
  - reference definitions of each document's page range and name;
  - `Action`, the naming loop of `action`, proved against those definitions.
- `PdfSplitProperties.dfy` (module `PdfSplitProperties`) holds lemmas about
  the model: stripping, the frequency, page ranges and names.

The PDF library's split is represented only by its result: the page counts
of the split documents, in order. `FILE_EXTENSION` is defined in
`BasePDFActionExecuter`, which is not part of this model, so it is a
parameter. The source node's file name (`getFilename`) is a parameter too.

## Model

| member | source | states |
|---|---|---|
| `PdfSplit.RemoveExtension` | src/org/alfresco/extension/pdftoolkit/repo/action/executer/PDFSplitActionExecuter.java:326-341 | null maps to null; a name without the extension is returned unchanged; otherwise the result is the prefix ending just before the first occurrence of the extension, with no earlier occurrence |
| `PdfSplitProperties.RemoveExtensionLacksExtension` | src/org/alfresco/extension/pdftoolkit/repo/action/executer/PDFSplitActionExecuter.java:331-336 | for a non-empty extension, the stripped name no longer contains it |
| `PdfSplitProperties.RemoveExtensionIdempotent` | src/org/alfresco/extension/pdftoolkit/repo/action/executer/PDFSplitActionExecuter.java:326-341 | stripping twice equals stripping once, for every name including null and every extension including "" |
| `PdfSplitProperties.RemoveExtensionCutsAtFirstOccurrence` | src/org/alfresco/extension/pdftoolkit/repo/action/executer/PDFSplitActionExecuter.java:334-336 | `a.pdf.b.pdf` with `.pdf` becomes `a`: the cut is at the first occurrence, not at a trailing one |
| `PdfSplitProperties.RemoveEmptyExtension` | src/org/alfresco/extension/pdftoolkit/repo/action/executer/PDFSplitActionExecuter.java:331-336 | an empty extension is contained at index 0, so the result is the empty name |
| `JavaLang.IndexOf` | src/org/alfresco/extension/pdftoolkit/repo/action/executer/PDFSplitActionExecuter.java:334 | the result is -1 or an index where the extension occurs, and the extension occurs at no smaller index |
| `JavaLang.Contains` | src/org/alfresco/extension/pdftoolkit/repo/action/executer/PDFSplitActionExecuter.java:331 | true exactly when the extension occurs somewhere in the name |
| `JavaLang.ParseInt` | src/org/alfresco/extension/pdftoolkit/repo/action/executer/PDFSplitActionExecuter.java:170 | accepted text is optionally signed decimal digits, and its value fits in an int; a negative result came from a leading '-'; rejected text throws NumberFormatException carrying that text |
| `JavaLang.ParseIntRoundTrip` | src/org/alfresco/extension/pdftoolkit/repo/action/executer/PDFSplitActionExecuter.java:170 | for every int n, Integer.toString(n) is canonical and parses back to n |
| `JavaLang.ParseIntCanonical` | src/org/alfresco/extension/pdftoolkit/repo/action/executer/PDFSplitActionExecuter.java:170 | a canonical literal that parses (no '+', no leading zero, no "-0") is exactly Integer.toString of its value |
| `JavaLang.ParseIntAccepts` | src/org/alfresco/extension/pdftoolkit/repo/action/executer/PDFSplitActionExecuter.java:170 | an optional '+' or '-', any number of leading zeros, then the digits of n: the text parses to n with that sign exactly when that value fits in an int, and throws otherwise. So "+5", "007" and "-0" parse to 5, 7 and 0 |
| `JavaLang.ParseIntAcceptedForm` | src/org/alfresco/extension/pdftoolkit/repo/action/executer/PDFSplitActionExecuter.java:170 | conversely, every text that parses is an optional sign, leading zeros and the digits of some n, and its value is n with that sign |
| `JavaLang.IntToStringInjective` | src/org/alfresco/extension/pdftoolkit/repo/action/executer/PDFSplitActionExecuter.java:215 | different ints render as different strings |
| `JavaLang.NatToString` | src/org/alfresco/extension/pdftoolkit/repo/action/executer/PDFSplitActionExecuter.java:215 | the rendering of a natural number is a non-empty string of decimal digits that starts with '0' only for 0 |
| `JavaLang.NatToStringRoundTrip` | src/org/alfresco/extension/pdftoolkit/repo/action/executer/PDFSplitActionExecuter.java:215 | the digits of the rendering of n have the value n |
| `JavaLang.IntToString` | src/org/alfresco/extension/pdftoolkit/repo/action/executer/PDFSplitActionExecuter.java:215-224 | `"" + n` (at lines 215 and 224) is non-empty, starts with '-' exactly when n is negative, and is all decimal digits otherwise |
| `JavaLang.ConcatOperand` | src/org/alfresco/extension/pdftoolkit/repo/action/executer/PDFSplitActionExecuter.java:222-224 | string concatenation renders a null `fileNameSansExt` as "null" and a string as itself |
| `PdfSplit.ParseSplitFrequency` | src/org/alfresco/extension/pdftoolkit/repo/action/executer/PDFSplitActionExecuter.java:163-171 | the empty text yields 0; any result is an int; a failure is a NumberFormatException carrying the text |
| `PdfSplitProperties.SplitFrequencyRoundTrip` | src/org/alfresco/extension/pdftoolkit/repo/action/executer/PDFSplitActionExecuter.java:168-171 | the frequency text for any int n (as Integer.toString writes it) yields n |
| `PdfSplitProperties.SplitFrequencyCanonical` | src/org/alfresco/extension/pdftoolkit/repo/action/executer/PDFSplitActionExecuter.java:168-171 | a canonical frequency text (no '+', no leading zero, no "-0") that is accepted is the rendering of the frequency it yields |
| `PdfSplitProperties.SplitFrequencyLenient` | src/org/alfresco/extension/pdftoolkit/repo/action/executer/PDFSplitActionExecuter.java:168-171 | a non-empty frequency text may carry a '+' sign and leading zeros: it yields the value of its digits with its sign when that fits in an int, and throws otherwise |
| `PdfSplitProperties.SplitFrequencyAcceptedText` | src/org/alfresco/extension/pdftoolkit/repo/action/executer/PDFSplitActionExecuter.java:168-171 | every non-empty frequency text that is accepted is an optional sign, leading zeros and the digits of some n, and yields n with that sign |
| `PdfSplitProperties.SplitFrequencyPlusSign` | src/org/alfresco/extension/pdftoolkit/repo/action/executer/PDFSplitActionExecuter.java:170 | the text "+5" yields frequency 5 |
| `PdfSplitProperties.SplitFrequencyLeadingZeros` | src/org/alfresco/extension/pdftoolkit/repo/action/executer/PDFSplitActionExecuter.java:170 | the text "007" yields frequency 7 |
| `PdfSplitProperties.SplitFrequencyNegativeZero` | src/org/alfresco/extension/pdftoolkit/repo/action/executer/PDFSplitActionExecuter.java:170 | the text "-0" yields frequency 0, one document per page |
| `PdfSplitProperties.SplitFrequencyMalformed` | src/org/alfresco/extension/pdftoolkit/repo/action/executer/PDFSplitActionExecuter.java:170 | the texts "-" and "5x" throw NumberFormatException carrying the text |
| `PdfSplit.SplitFrequencyParameterAsWritten` | src/org/alfresco/extension/pdftoolkit/repo/action/executer/PDFSplitActionExecuter.java:166-171 | an unset parameter throws NullPointerException; a set one is read as its text |
| `PdfSplitProperties.UnsetFrequencyThrows` | src/org/alfresco/extension/pdftoolkit/repo/action/executer/PDFSplitActionExecuter.java:166-167 | as written, an unset parameter throws, while the empty text yields 0 |
| `PdfSplit.SplitFrequencyParameter` | src/org/alfresco/extension/pdftoolkit/repo/action/executer/PDFSplitActionExecuter.java:85-87 | an unset parameter (declared optional) yields 0; a set one is read as its text; any result is an int |
| `PdfSplitProperties.SplitFrequencyParameterCorrected` | src/org/alfresco/extension/pdftoolkit/repo/action/executer/PDFSplitActionExecuter.java:164-171 | the corrected reading agrees with the code wherever the code does not throw NullPointerException; unset reads like "" |
| `PdfSplit.SumStep` | src/org/alfresco/extension/pdftoolkit/repo/action/executer/PDFSplitActionExecuter.java:213 | adding the k-th document's pages to the total of the first k gives the total of the first k+1, as `endPage = endPage + pagesInPDF` does |
| `PdfSplit.OutputName` | src/org/alfresco/extension/pdftoolkit/repo/action/executer/PDFSplitActionExecuter.java:211-225 | the name of a split document starts with the stripped base name |
| `PdfSplit.OutputNames` | src/org/alfresco/extension/pdftoolkit/repo/action/executer/PDFSplitActionExecuter.java:200-225 | the names of the first i split documents: exactly i of them, the k-th being the name of document k |
| `PdfSplit.Action` | src/org/alfresco/extension/pdftoolkit/repo/action/executer/PDFSplitActionExecuter.java:163-234 | a bad frequency throws its exception; an unset frequency reads as 0 (the corrected reading, see Findings and Left out); otherwise exactly one name per split document, in order. The k-th name is the stripped base, then `_pgs<1 + pages before k>-<pages up to k>` when the frequency is positive, else `_pg<k+1>`, then the extension. The loop invariant keeps `endPage` at the running page total and `page` one past it; with no positive frequency, `page` is the document number and `endPage` stays 0 |
| `PdfSplitProperties.OutputNameShape` | src/org/alfresco/extension/pdftoolkit/repo/action/executer/PDFSplitActionExecuter.java:203-225 | every name starts with the base and ends with the extension. With a frequency of at most 0 (negative included), a name depends only on the document's position, not on any page count. With a positive frequency, the range is 1 + the pages before the document up to that total plus its own pages |
| `PdfSplitProperties.SumPrefixMonotone` | src/org/alfresco/extension/pdftoolkit/repo/action/executer/PDFSplitActionExecuter.java:213 | the running page total never decreases |
| `PdfSplitProperties.BlockRange` | src/org/alfresco/extension/pdftoolkit/repo/action/executer/PDFSplitActionExecuter.java:191-230 | for `BlockStart` and `BlockEnd`, the first and last page that the `_pgs` tag of document k names: the k-th range holds exactly the k-th document's page count, and is non-empty (first page at most last page) exactly when that count is positive. The first range starts at page 1; each range starts one past the previous one's end; the last range ends at the total page count |
| `PdfSplitProperties.BlocksOrdered` | src/org/alfresco/extension/pdftoolkit/repo/action/executer/PDFSplitActionExecuter.java:213-230 | an earlier document's range ends before a later document's range starts |
| `PdfSplitProperties.PageInSomeBlock` | src/org/alfresco/extension/pdftoolkit/repo/action/executer/PDFSplitActionExecuter.java:211-230 | every page from 1 to the total lies in some document's range |
| `PdfSplitProperties.PageInExactlyOneBlock` | src/org/alfresco/extension/pdftoolkit/repo/action/executer/PDFSplitActionExecuter.java:211-230 | every page from 1 to the total lies in exactly one document's range, so the ranges partition the original document |
| `PdfSplitProperties.DigitsBeforeDash` | src/org/alfresco/extension/pdftoolkit/repo/action/executer/PDFSplitActionExecuter.java:215-224 | in `<digits>-<rest>`, the digits before the first dash are determined by the string |
| `PdfSplitProperties.RangeNameDeterminesStart` | src/org/alfresco/extension/pdftoolkit/repo/action/executer/PDFSplitActionExecuter.java:223-225 | two range names with the same base and extension that are equal have the same first page |
| `PdfSplitProperties.NumberNameDeterminesNumber` | src/org/alfresco/extension/pdftoolkit/repo/action/executer/PDFSplitActionExecuter.java:223-225 | two `_pg<i>` names with the same base and extension that are equal have the same number |
| `PdfSplitProperties.OutputNamesDistinct` | src/org/alfresco/extension/pdftoolkit/repo/action/executer/PDFSplitActionExecuter.java:221-225 | no two split documents get the same name: always with a frequency of at most 0, and with a positive frequency when every document has at least one page. So no save overwrites another, and each document is uploaded once |

## Left out

- PDF loading, splitting, saving and closing (PDFBox `PDDocument`, `Splitter`): foreign library. The split result is taken as a sequence of page counts.
- How the library partitions pages for a given frequency (blocks of that many pages, the last one shorter): library behaviour, not this code. The lemmas hold for any page counts.
- The staging directory and file uploads: filesystem I/O, in lines 195-198, 249-274 and 308-311. This covers `mkdir`, the `listFiles` loop (in unspecified order), `file.delete` and `tempDir.delete`. The model returns the file names in the order of the saves, without the `tempDir + separator` prefix of the save path. `OutputNamesDistinct` makes that list equal to the set of uploaded files only when the staging directory starts empty and every upload succeeds. The directory is named by the node id (lines 196-198), `listFiles` (line 249) uploads whatever it holds, and leftovers stay behind when `tempDir.delete` (line 310) fails on a non-empty directory or an `IOException` is swallowed (line 280). A `FileExistsException` stops the upload loop (lines 269-272).
- Repository services (the node-existence check, `getReader`, `getWriter`, `setEncoding`, `setMimetype`, `putContent`, and `getFilename` via the file/folder service): platform calls. `getFilenameSansExt` is `RemoveExtension` applied to the file name, which is given as a parameter.
- `BasePDFActionExecuter` is not part of this model. `FILE_EXTENSION` is a parameter, and `FILE_MIMETYPE` is used only for uploads.
- Exception handling and logging: stack traces are printed and `COSVisitorException` and `IOException` are swallowed; a `FileExistsException` on upload is rethrown as `AlfrescoRuntimeException`. Only the exceptions from reading the frequency are modelled.
- `addParameterDefinitions`: framework registration. It is used only as evidence that the frequency parameter is optional.
- `PDFAppendActionExecuter`, in full: glue around the PDF merge library and repository I/O. Its only local logic is the name `fileName + FILE_EXTENSION`.
- PdfSplit.Action: reads an unset split frequency as 0, the corrected reading of `SplitFrequencyParameter`. As written the code throws NullPointerException there (see Findings), which `SplitFrequencyParameterAsWritten` models.
- PdfSplit.Action: `page` and `endPage` are unbounded integers here. The Java int wrap-around after 2^31 - 1 pages is not modelled, since no document that large can be loaded.
- JavaLang.ParseInt: accepts only ASCII digits. Java's `Character.digit` also accepts other Unicode decimal digits. The leading '+' is accepted, as in Java 7 and later.

## Findings

| source | as written | input that shows it | evidently intended | confidence | as-written member | corrected member |
|---|---|---|---|---|---|---|
| src/org/alfresco/extension/pdftoolkit/repo/action/executer/PDFSplitActionExecuter.java:166-167 | `options.get(PARAM_SPLIT_FREQUENCY).toString()` dereferences the parameter value. That parameter is declared optional (lines 85-87). The NullPointerException escapes both `action` and `doSplit`. | the `split-frequency` parameter left unset (null) | an unset frequency means 0, like the empty text: one document per page | medium; not executed | `PdfSplit.SplitFrequencyParameterAsWritten`, `PdfSplitProperties.UnsetFrequencyThrows` | `PdfSplit.SplitFrequencyParameter`, `PdfSplitProperties.SplitFrequencyParameterCorrected` (used by `PdfSplit.Action`) |
