/**
 * splitPdf: validate and stage one upload, parse the page specification,
 * then either write one single-page PDF per selected page and pack them into
 * a ZIP (split mode), or write one PDF holding the selected pages in order
 * (extract mode).
 *
 * The PDF library is reduced to the page count it reads from the staged
 * file; each document it writes is recorded with the source pages it
 * received. Whether ZipArchive::open succeeds is a parameter.
 */
module Split {
  import opened Wrappers
  import opened PhpStrings
  import opened Uploads
  import opened PageSelection

  /**
   * A ZIP archive: its path and the entry names this call adds to it, in
   * order. The archive is opened with CREATE and without OVERWRITE, so an
   * archive left at the same path by an earlier call keeps its entries; those
   * are not recorded here.
   */
  datatype Archive = Archive(path: string, entries: seq<string>)

  /**
   * Everything one call does: the result it returns, the file it staged
   * under uploads/, the documents it wrote, the archive entries it added and
   * the files it unlinked, in order.
   */
  datatype SplitRun = SplitRun(
    outcome: Outcome,
    staged: Option<string>,
    written: seq<Document<int>>,
    archive: Option<Archive>,
    removed: seq<string>)

  /** `$outputDir . $originalFilename . '_page' . $pageNo . '.pdf'`. */
  function PagePath(base: string, p: int): string {
    OutputDir + base + "_page" + IntString(p) + ".pdf"
  }

  /** `$outputDir . $originalFilename . '_split.zip'`. */
  function ZipPath(base: string): string {
    OutputDir + base + "_split.zip"
  }

  /** `$outputDir . $originalFilename . '_extracted.pdf'`. */
  function ExtractPath(base: string): string {
    OutputDir + base + "_extracted.pdf"
  }

  /** The per-page file names of split mode, one per kept page, in order. */
  function PageFiles(base: string, kept: seq<int>): (files: seq<string>)
    ensures |files| == |kept|
  {
    seq(|kept|, i requires 0 <= i < |kept| => PagePath(base, kept[i]))
  }

  /** The single-page documents of split mode. */
  function PageDocuments(base: string, kept: seq<int>): (docs: seq<Document<int>>)
    ensures |docs| == |kept|
  {
    seq(|kept|, i requires 0 <= i < |kept| => Document(PagePath(base, kept[i]), [kept[i]]))
  }

  /** The entry names `basename($file)` the archive receives. */
  function Entries(files: seq<string>): (names: seq<string>)
    ensures |names| == |files|
  {
    seq(|files|, i requires 0 <= i < |files| => Basename(files[i]))
  }

  /**
   * Parsing, then the fall-back of lines 185-189: the page list splitPdf
   * works with once it knows the page count.
   */
  method SelectPages(pages: string, pageCount: nat) returns (pageNumbers: seq<int>)
    ensures pageNumbers == SelectedPages(pages, pageCount)
  {
    pageNumbers := ParsePageSpec(pages);
    if pageNumbers == [] {
      pageNumbers := AppendRange(pageNumbers, 1, pageCount);
    }
  }

  /** Split mode: one single-page document per in-range entry, in list order. */
  method WritePageFiles(base: string, pageNumbers: seq<int>, pageCount: nat)
    returns (written: seq<Document<int>>, splitFiles: seq<string>)
    ensures written == PageDocuments(base, InBounds(pageNumbers, pageCount))
    ensures splitFiles == PageFiles(base, InBounds(pageNumbers, pageCount))
  {
    written, splitFiles := [], [];
    for j := 0 to |pageNumbers|
      invariant splitFiles == PageFiles(base, InBounds(pageNumbers[..j], pageCount))
      invariant written == PageDocuments(base, InBounds(pageNumbers[..j], pageCount))
    {
      var pageNo := pageNumbers[j];
      assert pageNumbers[..j + 1] == pageNumbers[..j] + [pageNo];
      ghost var kept := InBounds(pageNumbers[..j], pageCount);
      if pageNo <= pageCount && pageNo > 0 {
        var outputFile := PagePath(base, pageNo);
        written := written + [Document(outputFile, [pageNo])];
        splitFiles := splitFiles + [outputFile];
        assert InBounds(pageNumbers[..j + 1], pageCount) == kept + [pageNo];
      } else {
        assert InBounds(pageNumbers[..j + 1], pageCount) == kept;
      }
    }
    assert pageNumbers[..|pageNumbers|] == pageNumbers;
  }

  /** The ZIP of lines 220-229: every page file added under its base name, then unlinked. */
  method PackArchive(zipFile: string, splitFiles: seq<string>)
    returns (archive: Archive, removed: seq<string>)
    ensures archive == Archive(zipFile, Entries(splitFiles))
    ensures removed == splitFiles
  {
    var entries: seq<string> := [];
    for k := 0 to |splitFiles|
      invariant entries == Entries(splitFiles[..k])
    {
      entries := entries + [Basename(splitFiles[k])];
    }
    assert splitFiles[..|splitFiles|] == splitFiles;
    archive := Archive(zipFile, entries);
    removed := UnlinkAll(splitFiles);
  }

  /** Extract mode: the in-range entries appended to one document, in list order. */
  method ExtractPages(pageNumbers: seq<int>, pageCount: nat) returns (appended: seq<int>)
    ensures appended == InBounds(pageNumbers, pageCount)
  {
    appended := [];
    for j := 0 to |pageNumbers|
      invariant appended == InBounds(pageNumbers[..j], pageCount)
    {
      var pageNo := pageNumbers[j];
      assert pageNumbers[..j + 1] == pageNumbers[..j] + [pageNo];
      if pageNo <= pageCount && pageNo > 0 {
        appended := appended + [pageNo];
      }
    }
    assert pageNumbers[..|pageNumbers|] == pageNumbers;
  }

  /**
   * The whole of splitPdf. The checks run in the order splitPdf runs them; a
   * staged file that the library cannot read raises the library's exception
   * and stays in uploads/.
   */
  method SplitPdf(u: Upload, pages: string, zipOpens: bool) returns (run: SplitRun)
    ensures CheckUpload(u).Some? ==> run == SplitRun(Failed(CheckUpload(u).value), None, [], None, [])
    ensures CheckUpload(u).None? && u.pdf.Corrupt? ==>
      run == SplitRun(Failed(LibraryFailed(u.pdf.message)), Some(StagingPath(u)), [], None, [])
    ensures CheckUpload(u).None? && u.pdf.Pages? ==>
      var n := u.pdf.count;
      var selected := SelectedPages(pages, n);
      var kept := InBounds(selected, n);
      var base := FileName(u.name);
      var files := PageFiles(base, kept);
      run.staged == Some(StagingPath(u)) &&
      if IsSplitMode(selected) then
        run.written == PageDocuments(base, kept) &&
        if zipOpens then
          run.outcome == Written(ZipPath(base)) &&
          run.archive == Some(Archive(ZipPath(base), Entries(files))) &&
          run.removed == files + [StagingPath(u)]
        else
          run.outcome == (if files == [] then WrittenWithoutLink else Written(files[0])) &&
          run.archive == None &&
          run.removed == [StagingPath(u)]
      else
        run.written == [Document(ExtractPath(base), kept)] &&
        run.outcome == Written(ExtractPath(base)) &&
        run.archive == None &&
        run.removed == [StagingPath(u)]
  {
    var check := CheckUpload(u);
    if check.Some? {
      return SplitRun(Failed(check.value), None, [], None, []);
    }
    var uploadPath := StagingPath(u);
    if u.pdf.Corrupt? {
      return SplitRun(Failed(LibraryFailed(u.pdf.message)), Some(uploadPath), [], None, []);
    }
    var pageCount := u.pdf.count;
    var pageNumbers := SelectPages(pages, pageCount);
    var base := FileName(u.name);
    if |pageNumbers| > 1 {
      var written, splitFiles := WritePageFiles(base, pageNumbers, pageCount);
      if zipOpens {
        var zipFile := ZipPath(base);
        var archive, removed := PackArchive(zipFile, splitFiles);
        run := SplitRun(Written(zipFile), Some(uploadPath), written, Some(archive), removed + [uploadPath]);
      } else {
        var outcome := if splitFiles == [] then WrittenWithoutLink else Written(splitFiles[0]);
        run := SplitRun(outcome, Some(uploadPath), written, None, [uploadPath]);
      }
    } else {
      var appended := ExtractPages(pageNumbers, pageCount);
      var outputFile := ExtractPath(base);
      run := SplitRun(Written(outputFile), Some(uploadPath), [Document(outputFile, appended)], None, [uploadPath]);
    }
  }

  // ---------------------------------------------------------------------
  // Properties of the output names
  // ---------------------------------------------------------------------

  /**
   * Different pages get different file names: the page number is read back
   * from the name by the integer cast of the text after "_page".
   */
  lemma PagePathInjective(base: string, p: int, q: int)
    requires p > 0 && q > 0
    requires PagePath(base, p) == PagePath(base, q)
    ensures p == q
  {
    var prefix := OutputDir + base + "_page";
    var tp, tq := DecimalString(p) + ".pdf", DecimalString(q) + ".pdf";
    PagePathParts(base, p);
    PagePathParts(base, q);
    assert tp == tq by {
      assert (prefix + tp)[|prefix|..] == tp;
      assert (prefix + tq)[|prefix|..] == tq;
    }
    ReadBackDecimal(p, ".pdf");
    ReadBackDecimal(q, ".pdf");
  }

  /** A page path is the fixed prefix, then the page number and ".pdf". */
  lemma PagePathParts(base: string, p: int)
    requires p > 0
    ensures PagePath(base, p) == (OutputDir + base + "_page") + (DecimalString(p) + ".pdf")
  {
  }

  /** Kept pages that differ are written to files that differ. */
  lemma DistinctPagesDistinctFiles(base: string, kept: seq<int>, n: nat, i: int, j: int)
    requires forall k :: 0 <= k < |kept| ==> InRange(kept[k], n)
    requires 0 <= i < |kept| && 0 <= j < |kept|
    requires kept[i] != kept[j]
    ensures PageFiles(base, kept)[i] != PageFiles(base, kept)[j]
  {
    if PageFiles(base, kept)[i] == PageFiles(base, kept)[j] {
      PagePathInjective(base, kept[i], kept[j]);
    }
  }

  lemma NoSlashInDecimal(n: nat)
    ensures '/' !in DecimalString(n)
  {
  }

  /**
   * The archive entry of page p is `base_pageP.pdf`: the output directory is
   * dropped, as `basename` does, when the base name holds no slash.
   */
  lemma PageEntryName(base: string, p: int)
    requires p > 0 && '/' !in base
    ensures Basename(PagePath(base, p)) == base + "_page" + IntString(p) + ".pdf"
  {
    var file := base + "_page" + IntString(p) + ".pdf";
    NoSlashInDecimal(p);
    assert '/' !in file;
    assert PagePath(base, p) == OutputDir + file;
    BasenameOfJoin(OutputDir, file);
  }

  /** Each archive entry is the bare name of the page it holds. */
  lemma ArchiveEntries(base: string, kept: seq<int>, n: nat)
    requires '/' !in base
    requires forall k :: 0 <= k < |kept| ==> InRange(kept[k], n)
    ensures forall k :: 0 <= k < |kept| ==>
      Entries(PageFiles(base, kept))[k] == base + "_page" + IntString(kept[k]) + ".pdf"
  {
    forall k | 0 <= k < |kept|
      ensures Entries(PageFiles(base, kept))[k] == base + "_page" + IntString(kept[k]) + ".pdf"
    {
      PageEntryName(base, kept[k]);
    }
  }

  /**
   * Split mode writes one single-page document per in-range entry: page p
   * is written exactly as often as it occurs in the selection, and no
   * out-of-range page is written.
   */
  lemma SplitWritesEachSelectedPage(base: string, selected: seq<int>, n: nat, p: int)
    ensures var docs := PageDocuments(base, InBounds(selected, n));
      (forall k :: 0 <= k < |docs| ==> |docs[k].pages| == 1 && InRange(docs[k].pages[0], n)) &&
      multiset(seq(|docs|, k requires 0 <= k < |docs| => docs[k].pages[0]))[p] ==
        if InRange(p, n) then multiset(selected)[p] else 0
  {
    var kept := InBounds(selected, n);
    var docs := PageDocuments(base, kept);
    assert seq(|docs|, k requires 0 <= k < |docs| => docs[k].pages[0]) == kept;
    InBoundsCounts(selected, n);
  }

  /**
   * "a,b" on an n-page document with only a in range still chooses split
   * mode, because the mode is decided before the bounds test; a single page
   * file is written and packed.
   */
  lemma SplitWithOneSurvivor(base: string, a: nat, b: nat, n: nat)
    requires InRange(a, n) && !InRange(b, n)
    ensures var selected := SelectedPages(DecimalString(a) + "," + DecimalString(b), n);
      IsSplitMode(selected) && PageFiles(base, InBounds(selected, n)) == [PagePath(base, a)]
  {
    OutOfRangeDropped(a, b, n);
  }
}
