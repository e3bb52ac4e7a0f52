/**
 * The collector, as values: the bytes a stream's chunks make up, which files
 * of a listing are loaded, what each one becomes, and what the whole directory
 * merge writes.
 */
module Collection {
  import opened PdfTypes
  import opened FileNames
  import opened Sorting
  import opened Pages

  // ---------------------------------------------------------------------------
  // Draining a stream: Buffer.concat
  // ---------------------------------------------------------------------------

  /** `Buffer.concat(chunks)`: the chunks' bytes, one chunk after the other. */
  function Concat(chunks: seq<Chunk>): seq<byte>
  {
    if chunks == [] then [] else chunks[0] + Concat(chunks[1..])
  }

  /** Total number of bytes in a list of chunks. */
  function ByteCount(chunks: seq<Chunk>): nat
  {
    if chunks == [] then 0 else |chunks[0]| + ByteCount(chunks[1..])
  }

  /** Concatenating two runs of chunks concatenates their bytes. */
  lemma {:induction false} ConcatAppend(a: seq<Chunk>, b: seq<Chunk>)
    ensures Concat(a + b) == Concat(a) + Concat(b)
    ensures ByteCount(a + b) == ByteCount(a) + ByteCount(b)
  {
    if a != [] {
      assert (a + b)[0] == a[0] && (a + b)[1..] == a[1..] + b;
      ConcatAppend(a[1..], b);
    } else {
      assert a + b == b;
    }
  }

  lemma {:induction false} ConcatLength(chunks: seq<Chunk>)
    ensures |Concat(chunks)| == ByteCount(chunks)
  {
    if chunks != [] {
      ConcatLength(chunks[1..]);
    }
  }

  /**
   * Arrival order is kept: byte `j` of chunk `k` lands right after the bytes of
   * all chunks that arrived before chunk `k`.
   */
  lemma ConcatChunkAt(chunks: seq<Chunk>, k: nat, j: nat)
    requires k < |chunks| && j < |chunks[k]|
    ensures ByteCount(chunks[..k]) + j < |Concat(chunks)|
    ensures Concat(chunks)[ByteCount(chunks[..k]) + j] == chunks[k][j]
  {
    var before, after := chunks[..k], chunks[k + 1..];
    assert chunks == before + ([chunks[k]] + after);
    ConcatAppend(before, [chunks[k]] + after);
    ConcatLength(before);
    ConcatLength(chunks);
    ConcatLength([chunks[k]] + after);
  }

  // ---------------------------------------------------------------------------
  // Loading the `.pdf` entries of a listing
  // ---------------------------------------------------------------------------

  /** The record a fully and cleanly read stream turns into. */
  function CollectedFile(name: string, open: string -> ReadStream): PdfFile
  {
    PdfFile(name, Concat(open(name).chunks))
  }

  /** The records for a list of names, in that order. */
  function Collected(names: seq<string>, open: string -> ReadStream): (r: seq<PdfFile>)
  {
    if names == [] then [] else [CollectedFile(names[0], open)] + Collected(names[1..], open)
  }

  /** A name's stream ends with an error. */
  predicate ReadFails(name: string, open: string -> ReadStream)
  {
    open(name).failure.Some?
  }

  /**
   * What `mergePdfFilesInDirectory` leaves in the output file: nothing when a
   * read fails or the merge fails, otherwise the merged pages of every `.pdf`
   * entry of the listing.
   */
  function DirectoryMergeSpec(entries: seq<string>, open: string -> ReadStream, parse: Parser): Option<seq<Page>>
  {
    var names := PdfFileNames(entries);
    if exists n :: n in names && ReadFails(n, open) then None
    else
      match MergeSpec(Collected(names, open), parse)
      case Success(pages) => Some(pages)
      case Failure(_) => None
  }

  lemma {:induction false} CollectedAppend(a: seq<string>, b: seq<string>, open: string -> ReadStream)
    ensures Collected(a + b, open) == Collected(a, open) + Collected(b, open)
  {
    if a != [] {
      assert (a + b)[0] == a[0] && (a + b)[1..] == a[1..] + b;
      CollectedAppend(a[1..], b, open);
    } else {
      assert a + b == b;
    }
  }

  /** Entry `i` of the collected records is the record for name `i`. */
  lemma {:induction false} CollectedAt(names: seq<string>, open: string -> ReadStream)
    ensures |Collected(names, open)| == |names|
    ensures forall i :: 0 <= i < |names| ==> Collected(names, open)[i] == CollectedFile(names[i], open)
  {
    if names != [] {
      CollectedAt(names[1..], open);
      assert forall i :: 1 <= i < |names| ==> names[1..][i - 1] == names[i];
    }
  }

  /** Names that differ give records whose filenames differ. */
  lemma CollectedDistinct(names: seq<string>, open: string -> ReadStream)
    requires Distinct(names)
    ensures DistinctNames(Collected(names, open))
  {
    CollectedAt(names, open);
  }

  /**
   * A record occurs among the collected records as often as its name occurs
   * among the names, provided it is the record that name collects to.
   */
  lemma {:induction false} CollectedCount(names: seq<string>, open: string -> ReadStream, f: PdfFile)
    ensures multiset(Collected(names, open))[f] ==
            if f == CollectedFile(f.filename, open) then multiset(names)[f.filename] else 0
  {
    if names != [] {
      CollectedCount(names[1..], open, f);
      assert names == [names[0]] + names[1..];
      assert multiset(names)[f.filename] == multiset([names[0]])[f.filename] + multiset(names[1..])[f.filename];
    }
  }

  /** Loading the same names in another order collects the same records. */
  lemma CollectedPermutation(a: seq<string>, b: seq<string>, open: string -> ReadStream)
    requires multiset(a) == multiset(b)
    ensures multiset(Collected(a, open)) == multiset(Collected(b, open))
  {
    forall f ensures multiset(Collected(a, open))[f] == multiset(Collected(b, open))[f] {
      CollectedCount(a, open, f);
      CollectedCount(b, open, f);
    }
  }

  /**
   * The files of a directory merge whose reads all succeed, collected in any
   * arrival order, merge to what the listing order merges to.
   */
  lemma CollectedInAnyOrder(entries: seq<string>, arrival: seq<string>, open: string -> ReadStream, parse: Parser)
    requires Distinct(entries)
    requires multiset(arrival) == multiset(PdfFileNames(entries))
    ensures MergeSpec(Collected(arrival, open), parse) == MergeSpec(Collected(PdfFileNames(entries), open), parse)
  {
    var names := PdfFileNames(entries);
    PdfFileNamesDistinct(entries);
    CollectedDistinct(names, open);
    CollectedPermutation(names, arrival, open);
    MergeIgnoresArrivalOrder(Collected(names, open), Collected(arrival, open), parse);
  }

  /**
   * A directory merge writes exactly when every `.pdf` entry reads cleanly,
   * there is at least one, and every one parses; what it writes then is all
   * their pages, file after file in name order.
   */
  lemma DirectoryMergeWritesIff(entries: seq<string>, open: string -> ReadStream, parse: Parser)
    ensures var names := PdfFileNames(entries);
      DirectoryMergeSpec(entries, open, parse).Some? <==>
        (forall n :: n in names ==> !ReadFails(n, open)) && |names| > 0 && AllParse(Collected(names, open), parse)
    ensures var names := PdfFileNames(entries);
      DirectoryMergeSpec(entries, open, parse).Some? ==>
        DirectoryMergeSpec(entries, open, parse).value == FlattenPages(SortByName(Collected(names, open)), parse)
  {
    var names := PdfFileNames(entries);
    CollectedAt(names, open);
    MergeFailsIff(Collected(names, open), parse);
    if DirectoryMergeSpec(entries, open, parse).Some? {
      MergeProducesAllPagesInNameOrder(Collected(names, open), parse);
    }
  }

  /**
   * The output file ends in `.pdf` itself: when a listing already holds the
   * `merged-pdfs.pdf` of an earlier run, that file is collected as an input.
   */
  lemma OutputFileIsCollected(entries: seq<string>)
    requires OutputFileName in entries
    ensures OutputFileName in PdfFileNames(entries)
  {
    assert EndsWith(OutputFileName, PdfExtension) by {
      assert OutputFileName[|OutputFileName| - 4..] == ".pdf";
    }
  }
}
