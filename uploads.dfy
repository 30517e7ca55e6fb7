/**
 * What mergePdfs and splitPdf know about one uploaded file, the failures they
 * report, and the directories and names they write.
 *
 * The outcomes of the calls the PHP code makes into its environment are
 * fields of the upload record: the token `uniqid()` returned for it, whether
 * `move_uploaded_file` succeeded, and what the PDF library's `setSourceFile`
 * made of the staged file (a page count, or an exception with its message).
 */
module Uploads {
  import opened Wrappers
  import opened PhpStrings

  /** PHP's UPLOAD_ERR_OK. */
  const UPLOAD_ERR_OK: int := 0

  const UploadDir: string := "uploads/"
  const OutputDir: string := "output/"

  /** What the PDF library reads from a staged file. */
  datatype Pdf = Pages(count: nat) | Corrupt(message: string)

  datatype Upload = Upload(name: string, error: int, token: string, moved: bool, pdf: Pdf)

  /** The errors the two operations report; each becomes a message for the user. */
  datatype Failure =
    | UploadFailed(code: int)    // a non-OK upload error code
    | NotPdf                     // the extension is not "pdf"
    | MoveFailed                 // move_uploaded_file returned false
    | NoFiles                    // the merge received no file at all
    | LibraryFailed(message: string)

  /**
   * The result handed back to the page: success with a download path, the
   * success the split reports when its ZIP fails and no page file exists
   * (`$splitFiles[0]` is then null and no link is shown), or a failure.
   */
  datatype Outcome = Written(file: string) | WrittenWithoutLink | Failed(failure: Failure)

  /** An output PDF: its path and the source pages appended to it, in order. */
  datatype Document<P> = Document(path: string, pages: seq<P>)

  /** `strtolower(pathinfo($name, PATHINFO_EXTENSION)) === 'pdf'`. */
  predicate HasPdfExtension(name: string) {
    ToLower(Extension(name)) == "pdf"
  }

  /** `$uploadDir . uniqid() . '_' . $name`. */
  function StagingPath(u: Upload): string {
    UploadDir + u.token + "_" + u.name
  }

  /**
   * The checks both operations run on one upload, in their order: the error
   * code, then the extension, then the move into the staging directory.
   */
  function CheckUpload(u: Upload): (r: Option<Failure>)
    ensures r == None <==> u.error == UPLOAD_ERR_OK && HasPdfExtension(u.name) && u.moved
    ensures u.error != UPLOAD_ERR_OK ==> r == Some(UploadFailed(u.error))
    ensures u.error == UPLOAD_ERR_OK && !HasPdfExtension(u.name) ==> r == Some(NotPdf)
    ensures u.error == UPLOAD_ERR_OK && HasPdfExtension(u.name) && !u.moved ==> r == Some(MoveFailed)
  {
    if u.error != UPLOAD_ERR_OK then Some(UploadFailed(u.error))
    else if !HasPdfExtension(u.name) then Some(NotPdf)
    else if !u.moved then Some(MoveFailed)
    else None
  }

  /** `foreach (... as $file) @unlink($file);`: the files removed, in order. */
  method UnlinkAll(paths: seq<string>) returns (removed: seq<string>)
    ensures removed == paths
  {
    removed := [];
    for i := 0 to |paths|
      invariant removed == paths[..i]
    {
      removed := removed + [paths[i]];
    }
    assert paths[..|paths|] == paths;
  }

  /** `stem.ext` passes the extension check exactly when `ext` lower-cases to "pdf". */
  lemma PdfExtensionOfDotted(stem: string, ext: string)
    requires '.' !in ext
    ensures HasPdfExtension(stem + "." + ext) <==> ToLower(ext) == "pdf"
  {
    PathInfoOfDotted(stem, ext);
  }

  /** A name without a dot has no extension and is refused. */
  lemma NoDotIsNotPdf(name: string)
    requires '.' !in name
    ensures !HasPdfExtension(name)
  {
  }

  /** The check ignores case: "report.PDF" is accepted. */
  lemma UpperCaseExtensionAccepted()
    ensures HasPdfExtension("report.PDF")
  {
    PdfExtensionOfDotted("report", "PDF");
    assert "report.PDF" == "report" + "." + "PDF";
  }

  /** Only the last extension counts: "report.pdf.exe" is refused. */
  lemma LastExtensionCounts()
    ensures !HasPdfExtension("report.pdf.exe")
  {
    PdfExtensionOfDotted("report.pdf", "exe");
    assert "report.pdf.exe" == "report.pdf" + "." + "exe";
    assert ToLower("exe")[0] == 'e';
  }

  /** A file called just "pdf" has no extension and is refused. */
  lemma BareNameRefused()
    ensures !HasPdfExtension("pdf")
  {
    NoDotIsNotPdf("pdf");
  }
}
