# pdf-merge-split, modelled in Dafny

pdf-merge-split is a one-page PHP tool that merges several uploaded PDF files
into one, or splits one PDF by a page specification such as `1,3-5,7`. This
project models the logic the page owns, all of it in `index.php`:

- **Uploads** (`uploads.dfy`): the checks that both operations run on each upload, in
  order: the upload error code, then a case-insensitive `pdf` extension, then the
  move into `uploads/`. Also the staging path `uploads/<token>_<name>` and the
  failure each check reports.
- **Page selection** (`page_selection.dfy`): the parser that turns the
  specification into page numbers.
  - Comma-separated tokens are expanded left to right.
  - `a-b` becomes `a..b`. Pieces after a second dash are dropped.
  - Every other token is one number read by PHP's `(int)` cast.
  - `""` and `"0"` count as no specification.
  - After parsing:
    - An empty list falls back to every page.
    - More than one entry picks split mode.
    - A bounds test keeps only `0 < p <= pageCount`.
- **splitPdf** (`split.dfy`): the whole operation as a method.
  - Split mode writes one `base_pageN.pdf` per in-range entry, adds them to
    `base_split.zip`, then unlinks them. The archive is opened without
    overwriting, so one left by an earlier split of a file with the same name
    keeps its old entries.
  - If the ZIP cannot be opened, split mode answers with the first page file instead.
  - Extract mode writes one `base_extracted.pdf` holding the kept pages in order.
- **mergePdfs** (`merge.dfy`):
  - Validation stops at the first failing upload. Earlier uploads stay staged.
  - The merged document holds pages `1..count` of each file, file after file.
  - It is named after the first upload.
  - On success the staged files are unlinked.
- **cleanupFiles** (`cleanup.dfy`): the retention sweep. It removes a listed regular
  file exactly when it is at least 86400 seconds old.
- **The merge list of the page script** (`merge_list.dfy`): a class over the
  sequence of chosen files. `addFiles` keeps the files it accepts as PDF,
  `removeFile` is `splice(index, 1)`, and a drop swaps two entries.
- `php_strings.dfy` holds the PHP built-ins these rely on: `(int)`, decimal
  rendering, `explode`/`implode`, `strtolower`, `pathinfo` and `basename`.
  `wrappers.dfy` holds an `Option` type.

The code calls into its environment, and the model takes each outcome as input:
- The upload record holds the token `uniqid()` returned, whether
  `move_uploaded_file` succeeded, and what the PDF library read from the
  staged file: a page count, or an exception with its message.
- Whether `ZipArchive::open` succeeds is a parameter.
- The directory listing with `is_file` and `filemtime`, and the clock, are
  parameters of the sweep.

Each operation returns a record of everything it did, in order: its result,
the files it staged, the documents it wrote with the source pages appended to
each, the archive entries, and the files it unlinked.

Two behaviours of the code differ from what a reader of the page would expect, and the model follows the code:
- The mode is decided by the number of expanded entries, before the bounds test
  (index.php:196), not by the number of tokens. So `1,99` on a five-page file
  is split mode, and the call adds one page to the ZIP. The archive holds only
  that page unless an earlier split of the same name left one behind.
- Tokens are not trimmed, and empty tokens are not skipped. `(int)` reads past
  leading white space, and an empty token casts to 0, which the bounds test
  then drops. So `3,` parses to `[3, 0]`.

## Model

| member | source | states |
|---|---|---|
| PhpStrings.IntCastOfDecimal | index.php:170-174 | `(int)` of leading white space, a decimal number and any non-digit text reads back exactly that number |
| PhpStrings.IntCastOfNonNumeric | index.php:170-174 | text that does not start (after white space) with a sign or a digit casts to 0 |
| PhpStrings.IntCast | index.php:170-174 | PHP's `(int)` of a string: skip leading white space, read an optional sign and the leading digits; no digit gives 0 |
| PhpStrings.DecimalString | index.php:210 | the rendering of a page number is non-empty, all digits, without a leading zero |
| PhpStrings.IntString | index.php:210 | PHP's decimal rendering of an integer in `'_page' . $pageNo`: a minus sign for a negative number, then its digits |
| PhpStrings.Explode | index.php:166 | `explode` returns at least one piece, and more than one exactly when the separator occurs |
| PhpStrings.ExplodePieces | index.php:166 | no piece of `explode` contains the separator |
| PhpStrings.ImplodeExplode | index.php:166 | joining the pieces of `explode` with the separator gives back the input |
| PhpStrings.ExplodeImplode | index.php:166 | exploding pieces joined by a separator they do not contain gives back the pieces |
| PhpStrings.ExplodeAround | index.php:169 | a piece without the separator, the separator, then the rest explodes to that piece followed by the pieces of the rest |
| PhpStrings.LastIndexOf | index.php:72 | the result is -1 or a position of the character, with no occurrence after it |
| PhpStrings.Extension | index.php:72 | `pathinfo(..., PATHINFO_EXTENSION)`: the text after the last dot, or empty when there is no dot |
| PhpStrings.FileName | index.php:115 | `pathinfo(..., PATHINFO_FILENAME)`: the text before the last dot, or the whole name when there is no dot |
| PhpStrings.Basename | index.php:222 | `basename`: the text after the last slash, or the whole path when it has none |
| PhpStrings.ToLower | index.php:146 | `strtolower`: every ASCII capital letter replaced by its small letter, every other character kept |
| PhpStrings.EndsWith | index.php:639 | `endsWith`: the string's last characters are exactly the suffix |
| PhpStrings.PathInfoParts | index.php:72 | the extension holds no dot; a dotted name is its file name, a dot and its extension; a name without a dot has no extension |
| PhpStrings.PathInfoOfDotted | index.php:115 | `pathinfo` of `stem.ext` gives extension `ext` and file name `stem` when `ext` has no dot |
| PhpStrings.BasenameOfJoin | index.php:222 | `basename` of `dir/file` is `file` when `file` has no slash |
| Uploads.CheckUpload | index.php:141-157 | no failure exactly when the error code is OK, the extension is `pdf` in any case and the move succeeded; a bad code is reported first, then a bad extension, then a failed move |
| Uploads.HasPdfExtension | index.php:146 | the lower-cased extension is exactly `pdf` |
| Uploads.StagingPath | index.php:151 | the staged copy `uploads/<uniqid>_<name>` |
| Uploads.UnlinkAll | index.php:227-229 | every path in the list is unlinked, in order |
| Uploads.PdfExtensionOfDotted | index.php:146 | `stem.ext` passes the extension check exactly when `ext` lower-cases to `pdf` |
| Uploads.NoDotIsNotPdf | index.php:72 | a name without a dot is refused |
| Uploads.UpperCaseExtensionAccepted | index.php:146 | `report.PDF` passes the extension check |
| Uploads.LastExtensionCounts | index.php:146 | `report.pdf.exe` is refused: only the text after the last dot counts |
| Uploads.BareNameRefused | index.php:146 | a file named `pdf` has no extension and is refused |
| PageSelection.ParsePageSpec | index.php:164-177 | the parsing loop yields the left-to-right concatenation of the tokens' expansions |
| PageSelection.IsEmptySpec | index.php:165 | `empty($pages)` on a string: it is `""` or `"0"` |
| PageSelection.ParsedPages | index.php:164-177 | no page for an empty specification, otherwise each comma-separated token expanded in turn and concatenated |
| PageSelection.TokenPages | index.php:168-175 | a token with a dash is the run from `(int)` of the first piece to `(int)` of the second; any other token is its `(int)` value |
| PageSelection.AppendRange | index.php:170-172 | the counting loop appends exactly `start..end`, nothing when `end < start` |
| PageSelection.Range | index.php:170-171 | the numbers `a, a+1, ..., b` the counting loop appends; nothing when `b < a` |
| PageSelection.ParsedPagesOfTokens | index.php:166-176 | parsing comma-joined tokens is the concatenation of their expansions, in order, with no sorting or removal of duplicates |
| PageSelection.ParsedPagesOfFirstToken | index.php:166-176 | a specification is its first token's expansion followed by the parse of the rest |
| PageSelection.ExpandAllCons | index.php:166-176 | the token expansions are read from the left, first token then rest |
| PageSelection.DashToken | index.php:168-172 | a token `x-y` without another dash is the run from `(int)x` to `(int)y` |
| PageSelection.RangeToken | index.php:168-172 | the token `a-b` expands to `a, a+1, ..., b` |
| PageSelection.NumberToken | index.php:173-174 | a decimal number token expands to that one page |
| PageSelection.ReversedRangeToken | index.php:168-172 | a token `a-b` with `b < a` contributes no page |
| PageSelection.ExtraDashIgnored | index.php:169 | `x-y-z` expands exactly as `x-y` |
| PageSelection.FallbackSelectsAllPages | index.php:185-189 | when nothing was parsed, the selection and what survives the bounds test are exactly `1..pageCount` |
| PageSelection.SelectedPages | index.php:185-189 | the parse, or `1..pageCount` when the parse is empty |
| PageSelection.EmptySpecSelectsAllPages | index.php:165-189 | `""` and `"0"` select every page, and all of them pass the bounds test |
| PageSelection.InBounds | index.php:201 | the kept list is no longer than the input and holds only pages in `1..pageCount` |
| PageSelection.InRange | index.php:201 | the bounds test `$pageNo <= $pageCount && $pageNo > 0` |
| PageSelection.AllInRange | index.php:242 | a list already in range passes the bounds test unchanged |
| PageSelection.InBoundsAppend | index.php:200-201 | the bounds test works entry by entry: filtering a concatenation is concatenating the filtered parts |
| PageSelection.InBoundsCounts | index.php:241-242 | each in-range page is kept as often as it occurs, every other number is dropped |
| PageSelection.InBoundsMembership | index.php:201 | a number survives the bounds test exactly when it occurs and is in range |
| PageSelection.IsSplitMode | index.php:196 | split mode exactly when the page list has more than one entry |
| PageSelection.ParsedPagesOfOneToken | index.php:166-176 | a specification without a comma is one token |
| PageSelection.MixedSpec | index.php:164-177 | `a,b-c,d` parses to `[a] + (b..c) + [d]` |
| PageSelection.TrailingComma | index.php:166-174 | `n,` parses to `[n, 0]`: the empty last token casts to 0 |
| PageSelection.SingletonRange | index.php:196 | `a-a` parses to the single page `a`, so extract mode is chosen |
| PageSelection.ProperRangeSplits | index.php:196 | `a-b` with `a < b` parses to `a..b`, so split mode is chosen |
| PageSelection.OutOfRangeDropped | index.php:196-201 | `a,b` with only `a` in range chooses split mode, and only `a` survives the bounds test |
| Split.SelectPages | index.php:164-189 | the page list is the parse of the specification, or `1..pageCount` when the parse is empty |
| Split.PagePath | index.php:210 | the page file `output/<base>_page<N>.pdf` |
| Split.ZipPath | index.php:217 | the archive `output/<base>_split.zip` |
| Split.ExtractPath | index.php:251 | the extract-mode output `output/<base>_extracted.pdf` |
| Split.PageFiles | index.php:200-214 | the page-file names of split mode, one per kept page, in order |
| Split.PageDocuments | index.php:200-214 | the single-page documents of split mode, each holding its kept page |
| Split.Entries | index.php:221-223 | the entry names `basename($file)` the archive receives, one per page file, in order |
| Split.WritePageFiles | index.php:200-214 | split mode writes one single-page document per in-range entry, in list order, named `base_pageN.pdf` |
| Split.PackArchive | index.php:217-229 | the archive receives every page file under its base name, in order, and then every page file is unlinked |
| Split.ExtractPages | index.php:238-249 | extract mode appends exactly the in-range entries, in list order, duplicates included |
| Split.SplitPdf | index.php:137-262 | the result, staged file, written documents, archive and unlinked files of every path through splitPdf: each validation failure, an unreadable file, split mode with and without the ZIP, and extract mode |
| Split.PagePathInjective | index.php:210 | two page files have the same name only for the same page; the page number is read back from the name by the `(int)` cast |
| Split.DistinctPagesDistinctFiles | index.php:210-212 | different kept pages get different file names |
| Split.PageEntryName | index.php:222 | the archive entry of page `p` is `base_pageP.pdf` |
| Split.ArchiveEntries | index.php:221-223 | each archive entry is the bare name of the page it holds |
| Split.SplitWritesEachSelectedPage | index.php:200-213 | each written document holds one in-range page, and page `p` is written as often as it is selected |
| Split.SplitWithOneSurvivor | index.php:196-212 | `a,b` with only `a` in range writes the one page file of `a` in split mode |
| Merge.PassCountStops | index.php:66-86 | the uploads before the pass count all pass their checks, and the upload at the count, if any, fails |
| Merge.PassCount | index.php:66-86 | the number of leading uploads that pass their checks, at most the number of uploads |
| Merge.ReadableCount | index.php:100-101 | the files before the count are readable, and the file at the count, if any, makes the library throw |
| Merge.AppendPages | index.php:104-110 | the page loop appends pages `1..count` of the file, in order |
| Merge.PageRun | index.php:104-110 | pages `1..count` of one source file, in order |
| Merge.StageUploads | index.php:66-86 | the upload loop stages the uploads up to the first failing one and returns that upload's failure |
| Merge.ImportPages | index.php:100-111 | the composition loop appends each file's pages in upload order, or reports the message of the first unreadable file |
| Merge.MergeSequence | index.php:100-111 | each file's pages `1..count`, file after file |
| Merge.MergedPath | index.php:115-116 | `output/` followed by the first upload's name without its extension and `_merged.pdf` |
| Merge.MergePdfs | index.php:61-128 | the result, staged files, written document and unlinked files of every path through mergePdfs: the first failing upload, no files, an unreadable file, success |
| Merge.LaterUploadsIgnored | index.php:66-86 | uploads after the first failing one do not change where validation stops |
| Merge.MergeLength | index.php:100-111 | the merged document has as many pages as all sources together |
| Merge.MergeMembership | index.php:100-111 | page `p` of source `s` is in the merged document exactly when that page exists |
| Merge.MergeOrdered | index.php:100-111 | the merged pages are strictly increasing in (source, page): upload order first, page order within a file, no repeats |
| Merge.SinglePageFiles | index.php:100-111 | N one-page files merge into N pages, page 1 of each file in upload order |
| Cleanup.CleanupFiles | index.php:269-280 | the sweep loop leaves the directory without every listed regular file at least 86400 seconds old, and leaves all else alone |
| Cleanup.Listed | index.php:270 | `glob($dir . '*')` lists a name exactly when it is non-empty and does not start with a dot |
| Cleanup.Expired | index.php:275 | the age test `$now - filemtime($file) >= 86400` |
| Cleanup.AfterSweep | index.php:273-278 | the directory without every listed regular file whose age is at least 86400 seconds |
| Cleanup.Survivors | index.php:273-278 | an entry survives exactly when glob does not list it, it is not a regular file, or it is less than 86400 seconds old; survivors are unchanged |
| Cleanup.RetentionBoundary | index.php:275 | a file exactly 86400 seconds old is removed, one 86399 seconds old is kept |
| Cleanup.SweepIdempotent | index.php:269-280 | sweeping twice at the same time equals sweeping once |
| Cleanup.LaterSweepRemovesMore | index.php:275 | a later sweep keeps no entry an earlier one removed |
| MergeList.Accepted | index.php:637-641 | the kept files are no more than the offered ones and all pass the PDF test |
| MergeList.AcceptedAsPdf | index.php:639 | a file is accepted when its MIME type is `application/pdf` or its lower-cased name ends in `.pdf` |
| MergeList.MergeFiles.constructor | index.php:595 | the list starts empty |
| MergeList.MergeFiles.AddFiles | index.php:635-644 | the list grows by exactly the accepted files, in input order |
| MergeList.MergeFiles.RemoveFile | index.php:693-696 | the list becomes `splice(index, 1)` of the old list |
| MergeList.MergeFiles.Drop | index.php:733-748 | dropping on another item swaps the two files; dropping on itself changes nothing |
| MergeList.SpliceStart | index.php:694 | where `splice` starts: a negative index counts from the end and is clamped to 0, a large one is clamped to the length |
| MergeList.Spliced | index.php:694 | the list without the entry at the splice start, or unchanged when the start is the length |
| MergeList.Swapped | index.php:740-742 | the list with the entries at the two indices exchanged |
| MergeList.AcceptedAppend | index.php:636-641 | adding in two batches equals adding once |
| MergeList.AcceptedCounts | index.php:639-640 | each accepted file is kept as often as it was offered, every other file is dropped |
| MergeList.AcceptanceExamples | index.php:639 | `Scan.PDF` with no type and `application/pdf` with no extension are accepted; `notes.txt` as `text/plain` is not |
| MergeList.SplicedRemovesOne | index.php:694 | removing a valid index drops exactly that file and keeps the others in order |
| MergeList.SpliceEdges | index.php:694 | an index past the end removes nothing; -1 removes the last file |
| MergeList.SwapPermutes | index.php:740-742 | a drop exchanges the two entries, keeps every other, and loses or adds no file |
| MergeList.SwapTwice | index.php:740-742 | dropping the same pair twice restores the list |

## Left out

- The PDF library (FPDI/FPDF): importing, sizing and placing pages, and writing the file. A source is its page count, or an exception with its message. A written document is the list of source pages appended to it.
- The blank page FPDF adds when a document with no page is output. Extract mode with no page in range is modelled as a document with no pages.
- Exceptions thrown inside the page and output calls are not modelled. Only the exception from reading a source file (`setSourceFile`) is.
- ZipArchive internals, and what `close()` does with an archive whose entry list is empty or repeats a name. The archive is the sequence of `addFile` calls.
- Split.PackArchive: the archive it returns records only the `addFile` calls of this request. `open` with CREATE and without OVERWRITE (index.php:220) reopens a `base_split.zip` that an earlier split left in output/. The sweep keeps such an archive for 86400 seconds. The old archive's entries stay in the file. Neither this method nor Split.SplitPdf tracks them.
- PageSelection.AppendRange: PHP's `memory_limit` and `max_execution_time` are not modelled. A range token covering millions of pages, such as `1-100000000`, makes the loop of index.php:170-171 exhaust them. PHP then ends the request with a fatal error that `catch (Exception $e)` does not catch: no result is returned, and the staged upload stays in uploads/. The model returns the whole range and goes on to write the pages.
- The failure of `unlink` is not modelled, because the source suppresses and ignores it with `@`. Every unlink is recorded as done.
- PhpStrings.IntCast: exponent forms such as `"1e3"`, and values beyond the integer range, are not modelled. Only leading white space, an optional sign and the leading digits are.
- PhpStrings.ToLower: only ASCII letters are lower-cased. That is exact for PHP's `strtolower`. In the page script, JavaScript's `toLowerCase` also folds non-ASCII letters, which this model does not.
- PhpStrings.Extension: names holding a slash are not modelled. PHP's `pathinfo` takes the basename first, so for `a.b/c` it gives `""`, while the model searches the whole name and gives `b/c`. PHP's upload handling removes any directory part from an uploaded file's name, so index.php:72, 146 never see one.
- PhpStrings.FileName: names holding a slash are not modelled, for the same reason. PHP gives `c` for `a.b/c`, and the model gives `a`.
- PhpStrings.Basename: only paths not ending in a slash are modelled. That holds for every path the code builds.
- The friendly messages (Japanese strings) are replaced by the failure each one reports.
- Request routing and the messages shown (lines 1-53), directory creation, the session and the HTML/CSS page. These are I/O and presentation.
- `updateFileList`, drag styling and `formatFileSize` (floating point) in the page script.
- How `submitMergeForm` posts the list is not modelled. It posts in list order, and the merge sees the uploads in that order.
- MergeList.MergeFiles.Drop: its precondition stands for the fact that both indices come from items of the list just rendered. A file dragged in from outside the page and dropped on a list item is not modelled. There `draggedItem` is null, line 736 throws a TypeError, and `mergeFiles` is left unchanged. The drop then bubbles to the drop zone, whose listener (index.php:626-630) adds the file as `addFiles` does.
- Concurrency: two requests whose tokens or output names collide, and a sweep running beside an operation.
