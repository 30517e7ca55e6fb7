/**
 * mergePdfs: validate and stage every upload in turn, stopping at the first
 * one that fails, then append every page of every staged file, file by file
 * and page by page, to one output document.
 */
module Merge {
  import opened Wrappers
  import opened PhpStrings
  import opened Uploads

  /** Page `page` (counted from 1) of the `source`-th upload. */
  datatype PageRef = PageRef(source: nat, page: nat)

  /**
   * Everything one call does: its result, the files it staged under
   * uploads/, the document it wrote (if any) and the files it unlinked.
   */
  datatype MergeRun = MergeRun(
    outcome: Outcome,
    staged: seq<string>,
    written: Option<Document<PageRef>>,
    removed: seq<string>)

  /** The number of leading uploads that pass the checks: validation stops at the next one. */
  function PassCount(files: seq<Upload>): (k: nat)
    ensures k <= |files|
  {
    if files == [] || !PassesChecks(files[0]) then 0 else 1 + PassCount(files[1..])
  }

  /** The uploads before the pass count are accepted, and the one at it is not. */
  lemma {:induction false} PassCountStops(files: seq<Upload>)
    ensures forall i :: 0 <= i < PassCount(files) ==> PassesChecks(files[i])
    ensures PassCount(files) < |files| ==> !PassesChecks(files[PassCount(files)])
  {
    if files != [] && PassesChecks(files[0]) {
      var rest := files[1..];
      PassCountStops(rest);
      forall i | 1 <= i < PassCount(files) ensures PassesChecks(files[i]) {
        assert files[i] == rest[i - 1];
      }
    }
  }

  /** The upload passes the error-code, extension and move checks. */
  predicate PassesChecks(u: Upload) {
    CheckUpload(u).None?
  }

  /** The number of leading uploads the library reads; it throws on the next one. */
  function ReadableCount(files: seq<Upload>): (k: nat)
    ensures k <= |files|
    ensures forall i :: 0 <= i < k ==> files[i].pdf.Pages?
    ensures k < |files| ==> files[k].pdf.Corrupt?
  {
    if files == [] || files[0].pdf.Corrupt? then 0 else 1 + ReadableCount(files[1..])
  }

  /** The staged paths of the uploads, in upload order. */
  function StagingPaths(files: seq<Upload>): (paths: seq<string>)
    ensures |paths| == |files|
  {
    seq(|files|, i requires 0 <= i < |files| => StagingPath(files[i]))
  }

  predicate AllReadable(files: seq<Upload>) {
    forall i :: 0 <= i < |files| ==> files[i].pdf.Pages?
  }

  /** The page counts the library reports, in upload order. */
  function Counts(files: seq<Upload>): (counts: seq<nat>)
    requires AllReadable(files)
    ensures |counts| == |files|
  {
    seq(|files|, i requires 0 <= i < |files| => files[i].pdf.count)
  }

  /** Pages 1..count of the `source`-th file. */
  function PageRun(source: nat, count: nat): (run: seq<PageRef>)
    ensures |run| == count
  {
    seq(count, k requires 0 <= k < count => PageRef(source, k + 1))
  }

  /** The merged page sequence: each file's pages 1..count, file after file. */
  function MergeSequence(counts: seq<nat>): seq<PageRef> {
    if counts == [] then []
    else MergeSequence(counts[..|counts| - 1]) + PageRun(|counts| - 1, counts[|counts| - 1])
  }

  /** `$outputDir . pathinfo($files['name'][0], PATHINFO_FILENAME) . '_merged.pdf'`. */
  function MergedPath(firstName: string): string {
    OutputDir + FileName(firstName) + "_merged.pdf"
  }

  /** The copies of one file's pages, appended by lines 104-110. */
  method AppendPages(pages: seq<PageRef>, source: nat, pageCount: nat) returns (r: seq<PageRef>)
    ensures r == pages + PageRun(source, pageCount)
  {
    r := pages;
    for pageNo := 1 to pageCount + 1
      invariant r == pages + PageRun(source, pageNo - 1)
    {
      assert PageRun(source, pageNo) == PageRun(source, pageNo - 1) + [PageRef(source, pageNo)];
      r := r + [PageRef(source, pageNo)];
    }
  }

  lemma StagingPathsSnoc(files: seq<Upload>, i: nat)
    requires i < |files|
    ensures StagingPaths(files[..i + 1]) == StagingPaths(files[..i]) + [StagingPath(files[i])]
  {
  }

  /**
   * The upload loop of lines 66-86: each upload is checked and staged in
   * turn, and the first one that fails ends the loop with its failure.
   */
  method StageUploads(files: seq<Upload>) returns (failure: Option<Failure>, uploadedFiles: seq<string>)
    ensures PassCount(files) < |files| ==>
      failure == CheckUpload(files[PassCount(files)]) && uploadedFiles == StagingPaths(files[..PassCount(files)])
    ensures PassCount(files) == |files| ==> failure == None && uploadedFiles == StagingPaths(files)
  {
    ghost var k := PassCount(files);
    PassCountStops(files);
    uploadedFiles := [];
    for i := 0 to |files|
      invariant i <= k
      invariant uploadedFiles == StagingPaths(files[..i])
    {
      var check := CheckUpload(files[i]);
      if check.Some? {
        assert !PassesChecks(files[i]);
        assert i == k;
        return check, uploadedFiles;
      }
      StagingPathsSnoc(files, i);
      uploadedFiles := uploadedFiles + [StagingPath(files[i])];
    }
    assert files[..|files|] == files;
    failure := None;
  }

  /**
   * The composition loop of lines 100-111: the library reads each staged
   * file in turn and every page of it is appended; a file it cannot read
   * raises the library's exception with its message.
   */
  method ImportPages(files: seq<Upload>) returns (error: Option<string>, pages: seq<PageRef>)
    ensures ReadableCount(files) < |files| ==> error == Some(files[ReadableCount(files)].pdf.message)
    ensures ReadableCount(files) == |files| ==> error == None && pages == MergeSequence(Counts(files))
  {
    pages := [];
    for i := 0 to |files|
      invariant i <= ReadableCount(files)
      invariant AllReadable(files[..i]) && pages == MergeSequence(Counts(files[..i]))
    {
      match files[i].pdf
      case Corrupt(message) =>
        return Some(message), pages;
      case Pages(pageCount) =>
        assert files[..i + 1][..i] == files[..i];
        assert Counts(files[..i + 1])[..i] == Counts(files[..i]);
        pages := AppendPages(pages, i, pageCount);
    }
    assert files[..|files|] == files;
    error := None;
  }

  /** The whole of mergePdfs. */
  method MergePdfs(files: seq<Upload>) returns (run: MergeRun)
    ensures PassCount(files) < |files| ==>
      var k := PassCount(files);
      run.outcome.Failed? && CheckUpload(files[k]) == Some(run.outcome.failure) &&
      run.staged == StagingPaths(files[..k]) && run.written == None && run.removed == []
    ensures files == [] ==> run == MergeRun(Failed(NoFiles), [], None, [])
    ensures files != [] && PassCount(files) == |files| && ReadableCount(files) < |files| ==>
      run == MergeRun(Failed(LibraryFailed(files[ReadableCount(files)].pdf.message)), StagingPaths(files), None, [])
    ensures files != [] && PassCount(files) == |files| && ReadableCount(files) == |files| ==>
      var out := MergedPath(files[0].name);
      run == MergeRun(Written(out), StagingPaths(files),
                      Some(Document(out, MergeSequence(Counts(files)))), StagingPaths(files))
  {
    PassCountStops(files);
    var failure, uploadedFiles := StageUploads(files);
    if failure.Some? {
      return MergeRun(Failed(failure.value), uploadedFiles, None, []);
    }
    if |uploadedFiles| == 0 {
      return MergeRun(Failed(NoFiles), [], None, []);
    }
    var error, pages := ImportPages(files);
    if error.Some? {
      return MergeRun(Failed(LibraryFailed(error.value)), uploadedFiles, None, []);
    }
    var outputFile := MergedPath(files[0].name);
    var removed := UnlinkAll(uploadedFiles);
    run := MergeRun(Written(outputFile), uploadedFiles, Some(Document(outputFile, pages)), removed);
  }

  // ---------------------------------------------------------------------
  // Properties of validation
  // ---------------------------------------------------------------------

  /** An upload after the first failing one has no effect on the result. */
  lemma LaterUploadsIgnored(files: seq<Upload>, more: seq<Upload>)
    requires PassCount(files) < |files|
    ensures PassCount(files + more) == PassCount(files)
  {
    var k := PassCount(files);
    var all := files + more;
    assert forall i :: 0 <= i <= k ==> all[i] == files[i];
    PassCountStops(files);
    PassCountStops(all);
  }

  // ---------------------------------------------------------------------
  // Properties of the merged page sequence
  // ---------------------------------------------------------------------

  function Sum(counts: seq<nat>): nat {
    if counts == [] then 0 else Sum(counts[..|counts| - 1]) + counts[|counts| - 1]
  }

  /** The merged document has as many pages as the sources together. */
  lemma {:induction false} MergeLength(counts: seq<nat>)
    ensures |MergeSequence(counts)| == Sum(counts)
  {
    if counts != [] {
      MergeLength(counts[..|counts| - 1]);
    }
  }

  /** Page p of source s is in the merged document exactly when that page exists. */
  lemma {:induction false} MergeMembership(counts: seq<nat>, r: PageRef)
    ensures r in MergeSequence(counts) <==> r.source < |counts| && 1 <= r.page <= counts[r.source]
  {
    if counts != [] {
      var front, last := counts[..|counts| - 1], counts[|counts| - 1];
      MergeMembership(front, r);
      var run := PageRun(|front|, last);
      assert r in run <==> r.source == |front| && 1 <= r.page <= last by {
        if r in run {
          var k :| 0 <= k < |run| && run[k] == r;
        }
        if r.source == |front| && 1 <= r.page <= last {
          assert run[r.page - 1] == r;
        }
      }
    }
  }

  /** Source order first, page order within a source. */
  predicate Before(x: PageRef, y: PageRef) {
    x.source < y.source || (x.source == y.source && x.page < y.page)
  }

  predicate StrictlyOrdered(refs: seq<PageRef>) {
    forall i, j :: 0 <= i < j < |refs| ==> Before(refs[i], refs[j])
  }

  /**
   * The merged sequence is strictly increasing in (source, page): files keep
   * their upload order, pages their document order, and no page repeats.
   */
  lemma {:induction false} MergeOrdered(counts: seq<nat>)
    ensures StrictlyOrdered(MergeSequence(counts))
    ensures forall i :: 0 <= i < |MergeSequence(counts)| ==> MergeSequence(counts)[i].source < |counts|
  {
    if counts != [] {
      var front := counts[..|counts| - 1];
      MergeOrdered(front);
      var a, b := MergeSequence(front), PageRun(|front|, counts[|counts| - 1]);
      var all := a + b;
      forall i, j | 0 <= i < j < |all| ensures Before(all[i], all[j]) {
        if j < |a| {
          assert all[i] == a[i] && all[j] == a[j];
        } else if i < |a| {
          assert all[i] == a[i] && all[j] == b[j - |a|];
        } else {
          assert all[i] == b[i - |a|] && all[j] == b[j - |a|];
        }
      }
    }
  }

  /** N single-page files merge into N pages, page 1 of each file in upload order. */
  lemma {:induction false} SinglePageFiles(counts: seq<nat>)
    requires forall i :: 0 <= i < |counts| ==> counts[i] == 1
    ensures MergeSequence(counts) == seq(|counts|, i requires 0 <= i < |counts| => PageRef(i, 1))
  {
    if counts != [] {
      SinglePageFiles(counts[..|counts| - 1]);
      assert PageRun(|counts| - 1, 1) == [PageRef(|counts| - 1, 1)];
    }
  }
}
