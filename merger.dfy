/**
 * The stateful part: the `PdfMerger` object that collects files and merges
 * them, the output document it appends pages to, the file system it writes
 * the result into, and the directory-mode entry point that drives it.
 */
module Merger {
  import opened PdfTypes
  import opened FileNames
  import opened Sorting
  import opened Pages
  import opened Collection

  /** The accumulating output document (`PDFDocument.create()`), grown one page at a time. */
  class PdfDocument {
    var pages: seq<Page>

    constructor Create()
      ensures pages == []
    {
      pages := [];
    }

    /** `addPage(page)`: the page goes at the end of the document. */
    method AddPage(page: Page)
      modifies this
      ensures pages == old(pages) + [page]
    {
      pages := pages + [page];
    }
  }

  /** The files the merge may write, by path; `writeFile` replaces a file's bytes. */
  class FileSystem {
    var files: map<string, seq<byte>>

    constructor (initial: map<string, seq<byte>>)
      ensures files == initial
    {
      files := initial;
    }

    /** `fs.writeFile(path, data)`: creates or overwrites one file, nothing else changes. */
    method WriteFile(path: string, data: seq<byte>)
      modifies this
      ensures files == old(files)[path := data]
    {
      files := files[path := data];
    }
  }

  class PdfMerger {
    /** The collected files, in the order their loads completed until a merge sorts them. */
    var pdfFiles: seq<PdfFile>

    constructor ()
      ensures pdfFiles == []
    {
      pdfFiles := [];
    }

    /**
     * `loadPdfFile`: drains the stream chunk by chunk; if it ends cleanly the
     * concatenated bytes are appended as one new file, otherwise the stream's
     * error is raised and the collection is left as it was.
     */
    method LoadPdfFile(filename: string, stream: ReadStream) returns (r: Result<(), string>)
      modifies this
      ensures stream.failure.None? ==>
        r == Success(()) && pdfFiles == old(pdfFiles) + [PdfFile(filename, Concat(stream.chunks))]
      ensures stream.failure.Some? ==>
        r == Failure(stream.failure.value) && pdfFiles == old(pdfFiles)
    {
      var chunks: seq<Chunk> := [];
      var i := 0;
      while i < |stream.chunks|
        invariant 0 <= i <= |stream.chunks|
        invariant chunks == stream.chunks[..i]
      {
        chunks := chunks + [stream.chunks[i]];
        i := i + 1;
      }
      assert chunks == stream.chunks;
      if stream.failure.Some? {
        return Failure(stream.failure.value);
      }
      var content := Concat(chunks);
      pdfFiles := pdfFiles + [PdfFile(filename, content)];
      return Success(());
    }

    /**
     * `pdfFiles.sort(...)` by filename, in place and stably: each file in turn
     * is moved into place among the already sorted files before it.
     */
    method SortByFilename()
      modifies this
      ensures pdfFiles == SortByName(old(pdfFiles))
    {
      ghost var orig := pdfFiles;
      var i := 0;
      while i < |pdfFiles|
        invariant |pdfFiles| == |orig| && 0 <= i <= |orig|
        invariant pdfFiles[..i] == SortByName(orig[..i])
        invariant pdfFiles[i..] == orig[i..]
      {
        ghost var before := pdfFiles;
        SinkIntoPrefix(i);
        SortPassStep(orig, before, pdfFiles, i);
        i := i + 1;
      }
      assert pdfFiles == pdfFiles[..i] && orig == orig[..i];
    }

    /**
     * One pass of the sort: the file at position `i` moves left past every
     * file before it whose name sorts strictly after its own.
     */
    method SinkIntoPrefix(i: nat)
      requires i < |pdfFiles|
      modifies this
      ensures |pdfFiles| == |old(pdfFiles)|
      ensures pdfFiles[..i + 1] == Insert(old(pdfFiles)[..i], old(pdfFiles)[i])
      ensures pdfFiles[i + 1..] == old(pdfFiles)[i + 1..]
    {
      ghost var sorted := pdfFiles[..i];
      ghost var rest := pdfFiles[i + 1..];
      ghost var x := pdfFiles[i];
      assert sorted[..i] == sorted && sorted[i..] == [];
      assert pdfFiles == sorted[..i] + [x] + sorted[i..] + rest;
      assert Insert(sorted, x) == Insert(sorted[..i], x) + sorted[i..];
      var j := i;
      while j > 0 && NameLt(pdfFiles[j].filename, pdfFiles[j - 1].filename)
        invariant 0 <= j <= i
        invariant pdfFiles == sorted[..j] + [x] + sorted[j..] + rest
        invariant Insert(sorted, x) == Insert(sorted[..j], x) + sorted[j..]
      {
        InsertStep(sorted, x, j);
        SwapStep(pdfFiles, sorted, x, rest, j);
        pdfFiles := pdfFiles[j - 1 := pdfFiles[j]][j := pdfFiles[j - 1]];
        j := j - 1;
      }
      SinkDone(pdfFiles, sorted, x, rest, j);
    }

    /**
     * `mergePdfFiles`: fails on an empty collection; otherwise sorts the
     * collection, appends every page of every file in that order to one new
     * document, and only then serializes it and writes it to `outputPath`. A file
     * that does not parse aborts the merge before anything is written.
     */
    method MergePdfFiles(outputPath: string, parse: Parser, serialize: Serializer, fs: FileSystem)
      returns (r: Result<(), MergeError>)
      modifies this, fs
      ensures pdfFiles == SortByName(old(pdfFiles))
      ensures match MergeSpec(old(pdfFiles), parse)
        case Success(pages) => r == Success(()) && fs.files == old(fs.files)[outputPath := serialize(pages)]
        case Failure(e) => r == Failure(e) && fs.files == old(fs.files)
    {
      if |pdfFiles| == 0 {
        return Failure(NoPdfFiles);
      }
      SortByFilename();
      var mergedPdf := new PdfDocument.Create();
      var i := 0;
      while i < |pdfFiles|
        invariant 0 <= i <= |pdfFiles|
        invariant pdfFiles == SortByName(old(pdfFiles))
        invariant ConcatPages(pdfFiles[..i], parse) == Success(mergedPdf.pages)
        invariant fs.files == old(fs.files)
      {
        var srcDoc := parse(pdfFiles[i].content);
        ConcatPagesStep(pdfFiles, parse, i, mergedPdf.pages);
        if srcDoc.Failure? {
          ConcatPagesFailureStops(pdfFiles, parse, i + 1);
          return Failure(ParseError(srcDoc.error));
        }
        var indices := PageIndices(|srcDoc.value|);
        var copiedPages := CopyPages(srcDoc.value, indices);
        CopyAllPages(srcDoc.value);
        AddPages(mergedPdf, copiedPages);
        i := i + 1;
      }
      assert pdfFiles[..i] == pdfFiles;
      var pdfBytes := serialize(mergedPdf.pages);
      fs.WriteFile(outputPath, pdfBytes);
      return Success(());
    }
  }

  /** After pass `i` of the sort, one more file of the original order is sorted. */
  lemma SortPassStep(orig: seq<PdfFile>, before: seq<PdfFile>, after: seq<PdfFile>, i: nat)
    requires i < |orig| == |before| == |after|
    requires before[..i] == SortByName(orig[..i]) && before[i..] == orig[i..]
    requires after[..i + 1] == Insert(before[..i], before[i])
    requires after[i + 1..] == before[i + 1..]
    ensures after[..i + 1] == SortByName(orig[..i + 1])
    ensures after[i + 1..] == orig[i + 1..]
  {
    assert before[i] == orig[i];
    assert orig[..i + 1][..i] == orig[..i];
    assert before[i + 1..] == orig[i + 1..];
  }

  /** Swapping positions `j - 1` and `j` moves `x` one place to the left. */
  lemma SwapStep(p: seq<PdfFile>, sorted: seq<PdfFile>, x: PdfFile, rest: seq<PdfFile>, j: nat)
    requires 0 < j <= |sorted|
    requires p == sorted[..j] + [x] + sorted[j..] + rest
    ensures p[j - 1 := p[j]][j := p[j - 1]] == sorted[..j - 1] + [x] + sorted[j - 1..] + rest
  {
    var q := p[j - 1 := p[j]][j := p[j - 1]];
    var r := sorted[..j - 1] + [x] + sorted[j - 1..] + rest;
    assert |q| == |r|;
    forall k | 0 <= k < |q| ensures q[k] == r[k] {
      if k < j - 1 {
        assert q[k] == sorted[k] == r[k];
      } else if k == j - 1 {
        assert q[k] == x;
      } else if k == j {
        assert q[k] == sorted[j - 1] == r[k];
      } else if k <= |sorted| {
        assert q[k] == sorted[k - 1] == r[k];
      } else {
        assert q[k] == rest[k - |sorted| - 1] == r[k];
      }
    }
  }

  /** When the inner loop stops, the prefix holds the insertion of `x`. */
  lemma SinkDone(p: seq<PdfFile>, sorted: seq<PdfFile>, x: PdfFile, rest: seq<PdfFile>, j: nat)
    requires j <= |sorted|
    requires p == sorted[..j] + [x] + sorted[j..] + rest
    requires Insert(sorted, x) == Insert(sorted[..j], x) + sorted[j..]
    requires j == 0 || !NameLt(x.filename, sorted[j - 1].filename)
    ensures p[..|sorted| + 1] == Insert(sorted, x)
    ensures p[|sorted| + 1..] == rest
  {
    assert Insert(sorted[..j], x) == sorted[..j] + [x];
    assert p == Insert(sorted, x) + rest;
  }

  /** `copiedPages.forEach(page => mergedPdf.addPage(page))`. */
  method AddPages(doc: PdfDocument, copiedPages: seq<Page>)
    modifies doc
    ensures doc.pages == old(doc.pages) + copiedPages
  {
    var j := 0;
    while j < |copiedPages|
      invariant 0 <= j <= |copiedPages|
      invariant doc.pages == old(doc.pages) + copiedPages[..j]
    {
      doc.AddPage(copiedPages[j]);
      assert copiedPages[..j + 1] == copiedPages[..j] + [copiedPages[j]];
      j := j + 1;
    }
    assert copiedPages[..j] == copiedPages;
  }

  /** One step of the inner insertion loop, as the functional insertion sees it. */
  lemma InsertStep(sorted: seq<PdfFile>, x: PdfFile, j: nat)
    requires 0 < j <= |sorted|
    requires NameLt(x.filename, sorted[j - 1].filename)
    requires Insert(sorted, x) == Insert(sorted[..j], x) + sorted[j..]
    ensures Insert(sorted, x) == Insert(sorted[..j - 1], x) + sorted[j - 1..]
  {
    var front := sorted[..j];
    assert front[..|front| - 1] == sorted[..j - 1];
    assert Insert(front, x) == Insert(sorted[..j - 1], x) + [sorted[j - 1]];
    assert sorted[j - 1..] == [sorted[j - 1]] + sorted[j..];
  }

  /**
   * `Promise.all(pdfFiles.map(filename => loadPdfFile(...)))`, with the loads
   * completing in the order `arrival` gives: succeeds when every stream ends
   * cleanly, and then the merger holds exactly those files in that order.
   */
  method LoadAll(pdfMerger: PdfMerger, arrival: seq<string>, open: string -> ReadStream) returns (ok: bool)
    modifies pdfMerger
    ensures ok <==> forall i :: 0 <= i < |arrival| ==> !ReadFails(arrival[i], open)
    ensures ok ==> pdfMerger.pdfFiles == old(pdfMerger.pdfFiles) + Collected(arrival, open)
  {
    ghost var start := pdfMerger.pdfFiles;
    var k := 0;
    while k < |arrival|
      invariant 0 <= k <= |arrival|
      invariant pdfMerger.pdfFiles == start + Collected(arrival[..k], open)
      invariant forall i :: 0 <= i < k ==> !ReadFails(arrival[i], open)
    {
      var loaded := pdfMerger.LoadPdfFile(arrival[k], open(arrival[k]));
      if loaded.Failure? {
        return false;
      }
      CollectedAppend(arrival[..k], [arrival[k]], open);
      assert arrival[..k + 1] == arrival[..k] + [arrival[k]];
      assert Collected([arrival[k]], open) == [CollectedFile(arrival[k], open)];
      k := k + 1;
    }
    assert arrival[..k] == arrival;
    return true;
  }

  /**
   * `mergePdfFilesInDirectory`: keeps the `.pdf` entries of the listing, loads
   * them (the loads complete in the order `arrival` gives), merges them into
   * `merged-pdfs.pdf`, and reports any failure instead of raising it.
   * Whatever the arrival order, the output is what the listing determines.
   */
  method MergePdfFilesInDirectory(
    entries: seq<string>, arrival: seq<string>, open: string -> ReadStream,
    parse: Parser, serialize: Serializer, fs: FileSystem)
    returns (ok: bool)
    requires Distinct(entries)
    requires multiset(arrival) == multiset(PdfFileNames(entries))
    modifies fs
    ensures ok <==> DirectoryMergeSpec(entries, open, parse).Some?
    ensures ok ==> fs.files == old(fs.files)[OutputFileName := serialize(DirectoryMergeSpec(entries, open, parse).value)]
    ensures !ok ==> fs.files == old(fs.files)
  {
    var names := PdfFileNames(entries);
    var pdfMerger := new PdfMerger();
    var loaded := LoadAll(pdfMerger, arrival, open);
    assert (forall i :: 0 <= i < |arrival| ==> !ReadFails(arrival[i], open)) <==>
           (forall n :: n in names ==> !ReadFails(n, open)) by {
      assert forall n :: n in names <==> n in multiset(arrival);
    }
    if !loaded {
      return false;
    }
    assert pdfMerger.pdfFiles == Collected(arrival, open);
    ghost var outcome := MergeSpec(Collected(names, open), parse);
    assert MergeSpec(pdfMerger.pdfFiles, parse) == outcome by {
      CollectedInAnyOrder(entries, arrival, open, parse);
    }
    assert DirectoryMergeSpec(entries, open, parse) ==
      if outcome.Success? then Some(outcome.value) else None;
    var merged := pdfMerger.MergePdfFiles(OutputFileName, parse, serialize, fs);
    ok := merged.Success?;
  }
}
