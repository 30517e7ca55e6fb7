/**
 * The page script's `mergeFiles` array: the files chosen for a merge, in
 * the order they will be submitted. Files are appended by `addFiles`,
 * removed by `removeFile`, and reordered by dropping one list item on another.
 */
module MergeList {
  import opened PhpStrings

  /** What the browser's File object tells the page: its name, MIME type and size. */
  datatype ClientFile = ClientFile(name: string, mimeType: string, size: nat)

  /** `file.type === 'application/pdf' || file.name.toLowerCase().endsWith('.pdf')`. */
  predicate AcceptedAsPdf(f: ClientFile) {
    f.mimeType == "application/pdf" || EndsWith(ToLower(f.name), ".pdf")
  }

  /** The files `addFiles` keeps, in input order. */
  function Accepted(incoming: seq<ClientFile>): (r: seq<ClientFile>)
    ensures |r| <= |incoming|
    ensures forall k :: 0 <= k < |r| ==> AcceptedAsPdf(r[k])
  {
    if incoming == [] then []
    else
      var last := incoming[|incoming| - 1];
      Accepted(incoming[..|incoming| - 1]) + (if AcceptedAsPdf(last) then [last] else [])
  }

  /**
   * Where `Array.prototype.splice(index, 1)` starts: a negative index counts
   * from the end (and is clamped to 0), a large one is clamped to the length.
   */
  function SpliceStart(index: int, len: nat): (s: nat)
    ensures s <= len
  {
    if index < 0 then (if len + index < 0 then 0 else len + index)
    else if index > len then len
    else index
  }

  /** The list after `splice(index, 1)`. */
  function Spliced(files: seq<ClientFile>, index: int): seq<ClientFile> {
    var s := SpliceStart(index, |files|);
    if s < |files| then files[..s] + files[s + 1..] else files
  }

  /** The list with the entries at `i` and `j` exchanged. */
  function Swapped(files: seq<ClientFile>, i: nat, j: nat): seq<ClientFile>
    requires i < |files| && j < |files|
  {
    files[i := files[j]][j := files[i]]
  }

  class MergeFiles {
    var files: seq<ClientFile>

    /** `let mergeFiles = [];` */
    constructor()
      ensures files == []
    {
      files := [];
    }

    /** `addFiles(files)`: pushes each accepted file, in order. */
    method AddFiles(incoming: seq<ClientFile>)
      modifies this
      ensures files == old(files) + Accepted(incoming)
    {
      for i := 0 to |incoming|
        invariant files == old(files) + Accepted(incoming[..i])
      {
        var file := incoming[i];
        assert incoming[..i + 1][..i] == incoming[..i];
        if file.mimeType == "application/pdf" || EndsWith(ToLower(file.name), ".pdf") {
          files := files + [file];
        }
      }
      assert incoming[..|incoming|] == incoming;
    }

    /** `removeFile(index)`: `mergeFiles.splice(index, 1)`. */
    method RemoveFile(index: int)
      modifies this
      ensures files == Spliced(old(files), index)
    {
      var s := SpliceStart(index, |files|);
      if s < |files| {
        files := files[..s] + files[s + 1..];
      }
    }

    /**
     * The drop handler: dropping an item on a different item exchanges the
     * two files; dropping it on itself changes nothing.
     */
    method Drop(draggedIndex: nat, targetIndex: nat)
      requires draggedIndex < |files| && targetIndex < |files|
      modifies this
      ensures files == if draggedIndex == targetIndex then old(files)
                       else Swapped(old(files), draggedIndex, targetIndex)
    {
      if draggedIndex != targetIndex {
        var temp := files[draggedIndex];
        files := files[draggedIndex := files[targetIndex]];
        files := files[targetIndex := temp];
      }
    }
  }

  // ---------------------------------------------------------------------
  // Properties of the list operations
  // ---------------------------------------------------------------------

  /** Adding in two batches is adding once: the filter works file by file. */
  lemma {:induction false} AcceptedAppend(a: seq<ClientFile>, b: seq<ClientFile>)
    ensures Accepted(a + b) == Accepted(a) + Accepted(b)
    decreases |b|
  {
    if b == [] {
      assert a + b == a;
    } else {
      var b' := b[..|b| - 1];
      assert (a + b)[..|a + b| - 1] == a + b';
      AcceptedAppend(a, b');
    }
  }

  /** Each accepted file is kept as often as it was offered; every other file is dropped. */
  lemma {:induction false} AcceptedCounts(incoming: seq<ClientFile>)
    ensures forall f :: multiset(Accepted(incoming))[f] ==
              if AcceptedAsPdf(f) then multiset(incoming)[f] else 0
  {
    if incoming != [] {
      var front, last := incoming[..|incoming| - 1], incoming[|incoming| - 1];
      AcceptedCounts(front);
      assert incoming == front + [last];
    }
  }

  /** The test ignores the case of the name and falls back to the MIME type. */
  lemma AcceptanceExamples()
    ensures AcceptedAsPdf(ClientFile("Scan.PDF", "", 0))
    ensures AcceptedAsPdf(ClientFile("scan", "application/pdf", 0))
    ensures !AcceptedAsPdf(ClientFile("notes.txt", "text/plain", 0))
  {
    assert ToLower("Scan.PDF") == "scan.pdf";
    assert ToLower("notes.txt")[5..] == ".txt";
  }

  /** Removing a valid index drops exactly that file and keeps the others in order. */
  lemma SplicedRemovesOne(files: seq<ClientFile>, i: int)
    requires 0 <= i < |files|
    ensures |Spliced(files, i)| == |files| - 1
    ensures forall k :: 0 <= k < i ==> Spliced(files, i)[k] == files[k]
    ensures forall k :: i <= k < |files| - 1 ==> Spliced(files, i)[k] == files[k + 1]
    ensures multiset(Spliced(files, i)) + multiset{files[i]} == multiset(files)
  {
    assert files == files[..i] + [files[i]] + files[i + 1..];
  }

  /** An index past the end removes nothing; -1 removes the last file. */
  lemma SpliceEdges(files: seq<ClientFile>, index: int)
    ensures index >= |files| ==> Spliced(files, index) == files
    ensures files != [] && index == -1 ==> Spliced(files, index) == files[..|files| - 1]
  {
  }

  /** A drop reorders the list without adding or losing a file. */
  lemma SwapPermutes(files: seq<ClientFile>, i: nat, j: nat)
    requires i < |files| && j < |files|
    ensures multiset(Swapped(files, i, j)) == multiset(files)
    ensures Swapped(files, i, j)[i] == files[j] && Swapped(files, i, j)[j] == files[i]
    ensures forall k :: 0 <= k < |files| && k != i && k != j ==> Swapped(files, i, j)[k] == files[k]
  {
  }

  /** Dropping the same pair twice restores the list. */
  lemma SwapTwice(files: seq<ClientFile>, i: nat, j: nat)
    requires i < |files| && j < |files|
    ensures Swapped(Swapped(files, i, j), i, j) == files
  {
  }
}
